# ACL: a verified model of annotation-driven access control

This project models the core of an access-control library for Nette
applications. Presenter and component classes are annotated with `@Group`,
and their methods with `@Access`. From these annotations a *mapping*
compiles a forest of policy nodes. At request time the ACL builds a chain of
*signals* (component, policy node, request) for the presenter, for the
operation slots the request names (action, signal, render), and for every
component along a signal name such as `form-submit`. It hands each chain to a
verification hook and reports the first denial.

The model has these parts:

- `wrappers.dfy`: `Option` and `Result`.
- `text.dfy` (module `Text`): the PHP string helpers the core relies on: `lcfirst`, `ucfirst`, `explode`/`implode`, truthiness and `ctype_alpha`.
- `nodes.dfy` (module `Nodes`):
  - policy nodes, one record shape for resources (`Control`, `Group`) and operations (`Action`, `Access`), held in an arena and referred to by index;
  - their constructors, the accession lookups, `isAllowed`;
  - the link step of the compiler, as written and as intended.
- `arena.dfy` (module `Arenas`): the arena as a class whose methods are the constructors and setters that change nodes in place.
- `compiler.dfy` (module `Compiler`): `getMethods` (classification of methods by name prefix) and `createGroups` (building every annotated class, then linking each under its declared parent).
- `forest.dfy` (module `Forest`): pre-order traversal of the forest, the recursive `getGroupByClass`/`getGroupById` searches, and termination of both walks from the link invariant.
- `index.dfy` (module `Index`): `createMetaLists`, which builds the four lookup tables (groups by id and by class, operations by id and by `Class::method`).
- `mapping.dfy` (module `Mappings`): the `Mapping` class, with `initialize` and the six lookups.
- `signal.dfy` (module `Signals`): the `Signal` class and its parent chain.
- `dest.dfy` (module `Destinations`): the link-destination grammar `presenter:action[!]`.
- `checks.dfy` (module `Checks`): the pure specification of the ACL's check loops, as runs of the verification hook over chains of frames.
- `acl.dfy` (module `Acl`): the `ACL` class:
  - `presenterSignal`, `componentSignal` and the deferred startup step;
  - `getMappingItemByDest`;
  - `isClassAccessed`, `isActionAccessed`, `isLinkAccessed`.

The model takes these as inputs instead of computing them:

- Reflection and the annotation reader become `ClassFact`/`MethodFact` values.
- The `crc32b` hash is a function parameter `hash`.
- The two event hooks become an oracle `verify` (a chain of frames to an optional denial message) and two logs: `verified`, the chains handed to the hook, and `reported`, the denials passed on.

## Model

| member | source | states |
|---|---|---|
| Text.LcFirst | src/Mapping.php:176 | keeps the length; only the first character may change, and only from upper to lower case |
| Text.UcFirst | src/ACL.php:221-228 | keeps the length; only the first character may change, and only from lower to upper case |
| Text.Split | src/ACL.php:140 | `explode` yields at least one piece and no piece contains the separator |
| Text.JoinSplit | src/ACL.php:140 | joining the pieces of a component name with `-` gives the name back, so `explode` loses no character |
| Nodes.ControlNodeSpec | src/Mapping/Control.php:35-57 | the constructor fails, with InvalidName of the class, exactly when the display name (annotated name, else short class name) is not alphabetic; a built node is denied by default and has no parent, accessions or children; its id is the declared one, else the hash of the file name |
| Nodes.GroupIsControlWithoutIdOrMessage | src/Mapping/Group.php:39-56 | with an annotation that declares no id and no message (as `@Group` never does), Group builds the same node as Control |
| Nodes.AccessIsActionWithoutOwner | src/Mapping/Access.php:35-50 | Access builds the Action node without its owner as parent and without its message |
| Nodes.GetAccess | src/Mapping/Control.php:77-85 | the first accession with that type and suffix; none exactly when no accession has them |
| Nodes.GetAccessByMethod | src/ACL.php:221-228 | the first accession declared by that method; none exactly when no accession was |
| Nodes.GetAccessBySuffix | src/ACL.php:252-263 | the first accession with that suffix; none exactly when no accession has it |
| Nodes.IsAllowedIsChainConjunction | src/Mapping/AMappingSignal.php:101-112 | `isAllowed(TRUE)` holds exactly when the node and every ancestor are allowed |
| Nodes.IsAllowedOwnFlag | src/Mapping/AMappingSignal.php:101-112 | `isAllowed(FALSE)` is the node's own flag on every node, whatever its ancestors say and whether or not its parent chain ends |
| Nodes.IsAllowedBoundIrrelevant | src/Mapping/AMappingSignal.php:101-112 | the answer does not depend on the bound used to show that the parent recursion (which follows only allowed nodes) terminates |
| Nodes.DeniedAncestorDenies | src/Mapping/AMappingSignal.php:101-112 | one denied ancestor denies `isAllowed(TRUE)` for every descendant |
| Nodes.SelfParentNeverEnds | src/Mapping/AMappingSignal.php:101-112 | a node that is its own parent has no finite parent chain; once it is allowed, `isAllowed(TRUE)` cannot return on it |
| Nodes.SelfParentDeniedReturns | src/Mapping/AMappingSignal.php:101-112 | a denied node that is its own parent is answered at once: `isAllowed(TRUE)` returns FALSE without following the parent |
| Nodes.LinkAsWrittenBreaksChain | src/Mapping.php:200-203 | as written, the link makes the parent its own parent, leaves the child's parent as it was, and leaves the parent without a finite chain; once the parent is allowed, `isAllowed(TRUE)` on it never returns |
| Nodes.LinkIntendedKeepsLinked | src/Mapping.php:200-203 | the intended link (child gets the parent) keeps every child and accession pointing back to its owner |
| Nodes.LinkIntendedChainsChild | src/Mapping.php:200-203 | after the intended link, the child's `isAllowed(TRUE)` is its own flag and its parent's `isAllowed(TRUE)` |
| Nodes.LinksAgreeOnChildren | src/Mapping.php:202 | the written and the intended link append the same child to the parent's children |
| Arenas.Arena.Load | src/Mapping.php:95 | the arena holds exactly the forest loaded from the cache |
| Arenas.Arena.NewControl | src/Mapping/Control.php:35-57 | on a non-alphabetic name nothing is appended and the error is InvalidName; otherwise the Control node is appended and its index returned; links are kept |
| Arenas.Arena.NewGroup | src/Mapping/Group.php:39-56 | the same for the Group constructor |
| Arenas.Arena.NewAction | src/Mapping/Action.php:36-53 | the Action node, with its owner as parent, is appended and its index returned; links are kept |
| Arenas.Arena.NewAccess | src/Mapping/Access.php:35-50 | the Access node is appended and its index returned; links are kept |
| Arenas.Arena.SetAllowed | src/Mapping/AMappingSignal.php:118-122 | only the flag of that node changes; the node itself is returned; links are kept |
| Arenas.Arena.SetMessage | src/Mapping/AMappingSignal.php:136-140 | only the message of that node changes; the node itself is returned; links are kept |
| Arenas.Arena.SetParent | src/Mapping/Group.php:106-110 | only the parent of that node changes, to a node or to none; the node itself is returned, as `Group::setParent` does (`AMappingSignal::setParent`, AMappingSignal.php:92-95, assigns the same way and returns nothing) |
| Arenas.Arena.AddAccession | src/Mapping/Control.php:90-93 | the operation is appended to the resource's accessions and nothing else changes; links are kept when the operation's parent is that resource |
| Arenas.Arena.AddChildren | src/Mapping/Control.php:107-110 | the child is appended to the resource's children and nothing else changes |
| Arenas.Arena.Link | src/Mapping.php:200-203 | the corrected link step; it keeps links when the child was a parentless resource |
| Arenas.Arena.LinkAsWrittenStep | src/Mapping.php:200-203 | the link step exactly as written |
| Signals.Param | src/ACL.php:95-97 | `getParameter` returns a value exactly when the request carries that key, and then its value |
| Signals.Signal.Frames | src/Signal.php:51-70 | the frames the hook sees: this signal's component, accessor and request first, then its ancestors' frames; only a parentless signal has one frame |
| Signals.Signal.constructor | src/Signal.php:42-46 | a new signal has its component and accessor, no parent and no request |
| Signals.Signal.GetAccessor | src/Signal.php:51-54 | returns the accessor the signal was built with |
| Signals.Signal.SetParent | src/Signal.php:67-70 | the chain becomes this frame followed by the parent's chain; the request is kept; the chain stays finite when the parent's chain does not contain this signal |
| Signals.Signal.SetRequest | src/Signal.php:83-86 | only the request changes, and with it the first frame of the chain |
| Signals.AccessDenied | src/Signal.php:100-103 | the exception carries the signal and the message; the message defaults to "Access Denied" |
| Signals.AccessDeniedDefaultMessage | src/Signal.php:100-103 | a denial raised without a message carries the signal and the text "Access Denied" |
| Compiler.Classify | src/Mapping.php:130-146 | the first of handle, render, action, createComponent that prefixes the method name, with the rest of the name; none exactly when no type prefixes it |
| Compiler.TypesExclusive | src/Mapping.php:43-48 | no two method types prefix the same name, so the order in which they are tried does not matter |
| Compiler.ClassifyIff | src/Mapping.php:130-146 | a name is classified as (type, suffix) exactly when the type prefixes it and the suffix is the rest |
| Compiler.ClassifyAllSpec | src/Mapping.php:130-146 | every entry of getMethods comes from a method of the class with its classification; every classifiable method has an entry; there are no more entries than methods |
| Compiler.GetMethods | src/Mapping.php:130-146 | the nested loop returns the classified methods in declaration order |
| Compiler.ClassifyMethod | src/Mapping.php:135-142 | the inner loop returns the entry of the first matching type, or none |
| Compiler.Declared | src/Mapping.php:156-166 | the compiled classes are concrete, carry `@Group`, and come from the discovered classes |
| Compiler.Annotated | src/Mapping.php:168-178 | the operations of a class are exactly its classified methods that carry `@Access` |
| Compiler.BuildClass | src/Mapping.php:164-178 | fails with InvalidName exactly on a non-alphabetic name; otherwise it appends the class's node, built with one operation per annotated method in method order (suffix with a lower-case first letter), with no children and no parent, and keeps links |
| Compiler.AddOperations | src/Mapping.php:168-178 | the loop appends exactly the operations of the class's annotated methods |
| Compiler.AddOperation | src/Mapping.php:175-177 | one annotated method's operation is built and appended to the class's accessions |
| Compiler.BuildClasses | src/Mapping.php:156-184 | the error is InvalidName of the first declared class with a bad name; otherwise every declared class is built in discovery order, each name maps to its node, and each declared parent is recorded |
| Compiler.LinkClasses | src/Mapping.php:189-203 | the error is GroupUndefined of the first class whose parent is not declared; otherwise the result is the roots in order and, with the intended link (see Findings), every class hangs under its declared parent |
| Compiler.LinkOne | src/Mapping.php:199-203 | one intended link step (see Findings) puts the class under its declared parent and keeps links |
| Compiler.RootsOfSpec | src/Mapping.php:189-193 | the listed roots are exactly the nodes of classes with an empty parent |
| Compiler.ChildrenOfSpec | src/Mapping.php:200-202 | the children of a class are exactly the nodes of the classes that declare it as parent |
| Compiler.RootsOfOrdered | src/Mapping.php:189-193 | roots are listed in discovery order, each once |
| Compiler.ChildrenOfOrdered | src/Mapping.php:200-202 | children are listed in discovery order, each once |
| Compiler.CompiledRoots | src/Mapping.php:189-206 | with the intended link (see Findings), the returned roots are parentless resources, and a class node is a root exactly when it has no parent |
| Compiler.CompiledParentLink | src/Mapping.php:195-203 | with the intended link (see Findings), a class with a declared parent has that class's node as parent and is among its children |
| Compiler.CompiledChildren | src/Mapping.php:200-202 | a class node's children are exactly its declaring classes, in order |
| Compiler.CreateGroups | src/Mapping.php:153-207 | fails exactly when some declared class has a bad name (that error first) or an undefined parent; otherwise it returns the roots of the forest linked with the intended link (see Findings) |
| Forest.PreOrder | src/Mapping.php:113-124 | the visiting order of createMetaLists lists only nodes of the arena |
| Forest.PreOrderContainsRefs | src/Mapping.php:113-124 | every listed group is visited |
| Forest.PreOrderClosed | src/Mapping.php:113-124 | a child of a visited group is visited |
| Forest.PreOrderMinimal | src/Mapping.php:113-124 | every visited group is listed or is a child of a visited group |
| Forest.SearchIsFirstInPreOrder | src/Mapping/Group.php:133-147 | the recursive search finds the first match in pre-order |
| Forest.DescendantSearchSpec | src/Mapping/Group.php:133-159 | the search on a node finds a matching proper descendant, the first in pre-order, and nothing exactly when none matches |
| Forest.GetGroupByClassSpec | src/Mapping/Group.php:133-147 | getGroupByClass finds the first proper descendant of that class in pre-order, and nothing exactly when there is none |
| Forest.GetGroupByIdSpec | src/Mapping/Group.php:149-159 | getGroupById finds the first proper descendant with that id in pre-order, and nothing exactly when there is none |
| Forest.RootHeight | src/Mapping.php:113-124 | in a linked arena no chain of children from a parentless node is longer than the arena, so the recursive walks terminate |
| Forest.PreOrderGrounded | src/Mapping/AMappingSignal.php:101-112 | every visited node, and each of its operations, has a finite parent chain |
| Index.PutSpec | src/Mapping.php:116-121 | after a run of writes a key is present exactly when it was or was written, and the last write wins |
| Index.MetaOne | src/Mapping.php:116-121 | visiting one group writes its id and class, then each accession by id and by `Class::method` |
| Index.VisitGroup | src/Mapping.php:116-121 | the loop body produces the lists after visiting that group |
| Index.MetaAppend | src/Mapping.php:113-124 | visiting one run of groups and then another is visiting both |
| Index.CreateMetaLists | src/Mapping.php:113-124 | the lists are the writes of every group in pre-order, each followed by its accessions |
| Index.VisitTree | src/Mapping.php:115-123 | one pass visits the first group and its subtree |
| Index.AccessIdsSpec | src/Mapping.php:119-120 | the id writes are exactly one per accession of each visited group |
| Index.AccessKeysSpec | src/Mapping.php:121 | the `Class::method` writes are exactly one per accession of each visited group |
| Index.IndexGroupById | src/Mapping.php:116 | an id is listed exactly when a visited group has it, and it maps to the last such group visited |
| Index.IndexGroupByClass | src/Mapping.php:117 | a class is listed exactly when a visited group has it, and it maps to the last such group visited |
| Index.IndexAccessById | src/Mapping.php:120 | an id is listed exactly when an operation of a visited group has it, and it maps to the last such write |
| Index.IndexAccessByClass | src/Mapping.php:121 | a `Class::method` key is listed exactly when it was written, and it maps to the last such write |
| Mappings.Mapping.Initialize | src/Mapping.php:93-107 | the groups come from the cache, or are compiled (with the intended link, see Findings) and saved when compiling; a compile error leaves mapping and cache unchanged; the lists are rebuilt from the groups |
| Mappings.GetGroupByIdSpec | src/Mapping.php:299-305 | finds the last visited group with that id, and nothing exactly when there is none |
| Mappings.GetGroupByClassSpec | src/Mapping.php:287-293 | finds the last visited group of that class, and nothing exactly when there is none |
| Mappings.GetAccessByIdSpec | src/Mapping.php:323-329 | finds an operation of a visited group with that id, and nothing exactly when there is none |
| Mappings.GetAccessByClassSpec | src/Mapping.php:311-317 | finds an operation listed under that `Class::method` key, and nothing exactly when there is none |
| Mappings.FindByIdSpec | src/Mapping.php:256-266 | a group with that id first, else an operation with it; nothing exactly when neither exists |
| Mappings.FindByClassSpec | src/Mapping.php:272-281 | a group of that class first, else the operation under that key; nothing exactly when neither exists |
| Mappings.FoundGrounded | src/Mapping.php:272-281 | whatever findByClass finds, and each of its operations, has a finite parent chain |
| Mappings.VisitedGrounded | src/Mapping.php:113-124 | every listed group, and each of its operations, has a finite parent chain |
| Checks.RunChecksSpec | src/ACL.php:100-113 | the hook sees a prefix of the candidate chains; all but the last passed; a denial comes from the last; without a denial every candidate was checked and passed |
| Checks.Path | src/ACL.php:145-150 | the components reached by the name pieces, stopping at the first missing one |
| Checks.Mapped | src/ACL.php:151-155 | the reached components whose class has a group, in order, each with that group |
| Checks.WalkIsChecksOverPath | src/ACL.php:144-166 | the component loop is one run of checks over the mapped components, each chained to the one before |
| Checks.WalkSpec | src/ACL.php:144-166 | each checked chain is a new frame with the request on top of the previous chain; a denial comes from the last chain, and all chains before it passed |
| Checks.Slots | src/ACL.php:94-98 | the slots are action, handle and render, named by the action, signal and action parameters |
| Checks.SlotAccess | src/ACL.php:100-103 | a slot names an operation of the group only when its parameter is truthy and some accession matches the type and the lower-cased suffix |
| Checks.SlotChainsSpec | src/ACL.php:99-106 | every slot chain is an operation of the group on top of the presenter's chain |
| Checks.SlotStep | src/ACL.php:100-112 | a slot adds one check exactly when it names an operation |
| Checks.SlotWalkIsChecks | src/ACL.php:99-113 | the slot loop is one run of checks over the slot chains |
| Checks.GroupOutcomeSpec | src/ACL.php:88-115 | the presenter chain is checked first; slot chains are checked only after it passes, at most three, each an operation of the group under it; the verdict is from the last check |
| Checks.PresenterOutcomeSpec | src/ACL.php:84-115 | nothing is checked when the presenter's class has no group; otherwise as for the group |
| Acl.HasHandleType | src/ACL.php:173-177 | true exactly when the name starts with an upper-case letter |
| Acl.ComponentOutcome | src/ACL.php:134-142 | a name of the handle type checks nothing; otherwise the walk over its `-` pieces |
| Acl.AllowedWithParents | src/Mapping/AMappingSignal.php:101-112 | `isAllowed(TRUE)` on a node with a finite chain holds exactly when it and every ancestor are allowed |
| Acl.LookupOrder | src/ACL.php:221-228 | the methods tried are `action<Action>`, then `render<Action>`, then `handle<Action>` only for a signal link |
| Acl.FirstByMethod | src/ACL.php:221-231 | the result of the first method tried that the item declares; none exactly when it declares none of them |
| Acl.ACL.Access | src/ACL.php:60-68 | the chain is handed to the hook; the result is a denial exactly when the hook denies, carrying the signal and the message |
| Acl.ACL.ReportDenied | src/ACL.php:73-76 | the denial is passed to the denied hook |
| Acl.ACL.PresenterSignal | src/ACL.php:82-127 | the hook sees exactly the chains of the presenter specification; a startup step is scheduled exactly when the request has a signal or a check was denied; it carries the denial and the presenter's signal |
| Acl.ACL.CheckPresenter | src/ACL.php:84-115 | without a group there is no signal and no check; otherwise the group's checks, with the denial from the last check |
| Acl.ACL.CheckGroup | src/ACL.php:88-115 | the presenter's signal is the first chain checked; the checks and the denial are those of the group specification |
| Acl.ACL.CheckSlots | src/ACL.php:99-113 | the slot loop checks exactly the slot specification's chains, stopping at the first denial |
| Acl.ACL.VisitSlot | src/ACL.php:100-112 | one slot step continues the slot specification, or ends it with its denial |
| Acl.ACL.CheckSlot | src/ACL.php:100-112 | one slot adds its chain to the checks exactly when it names an operation; a denial carries that chain |
| Acl.ACL.ComponentSignal | src/ACL.php:134-167 | the hook sees exactly the chains of the component specification; a denial is reported once, with the last chain |
| Acl.ACL.WalkComponents | src/ACL.php:145-166 | the loop checks exactly the walk specification's chains; a denial comes from the last |
| Acl.ACL.VisitComponent | src/ACL.php:146-165 | one piece of the name continues the walk, or ends it, with the denial when there is one |
| Acl.ACL.CheckComponent | src/ACL.php:157-165 | a new signal for the component is chained on the parent signal, with the request, and checked |
| Acl.ACL.RunStartup | src/ACL.php:119-125 | a recorded denial is reported and nothing is checked; otherwise the component signal is walked from the presenter's signal |
| Acl.ACL.IsClassAccessed | src/ACL.php:238-245 | true exactly when findByClass finds an item that is allowed together with all its ancestors |
| Acl.ACL.IsActionAccessed | src/ACL.php:252-263 | true exactly when findByClass finds an item whose first operation with that suffix is allowed together with all its ancestors |
| Acl.ACL.GetMappingItemByDestSpec | src/ACL.php:203-214 | a malformed destination gives InvalidLink; an unknown presenter gives InvalidPresenter; the lookup succeeds exactly when neither happens |
| Acl.ACL.GetMappingItemFound | src/ACL.php:216-231 | nothing is found exactly when findByClass finds nothing; otherwise the first operation of the item that the lookup order names, else the item itself |
| Acl.ACL.IsLinkAccessed | src/ACL.php:271-278 | link errors pass through; nothing found is allowed; a found item must be allowed together with all its ancestors |
| Acl.ACL.ItemGrounded | src/ACL.php:271-278 | whatever getMappingItemByDest finds has a finite parent chain, so `isAllowed(TRUE)` returns |
| Destinations.ParseFormat | src/ACL.php:205-208 | every well-formed destination is read back from its text |
| Destinations.FormatParse | src/ACL.php:205-208 | whatever is parsed is well formed and is exactly the text it came from |
| Destinations.ParseDestIff | src/ACL.php:205-207 | a destination is rejected, with InvalidLink, exactly when no well-formed destination has that text |

## Left out

- Reflection and annotation reading (`findClassByInterfaces`, `ReflectionClass`, the Doctrine reader) are not modelled. The discovered classes, with their annotations and methods, are an input sequence of class facts.
- Class discovery yields unique class names (PHP class names are unique), so `CreateGroups` and `Initialize` require `DistinctNames`. The PHP code keys its table by class name and relies on the same thing.
- `hash("crc32b", …)` is a function parameter `hash`; its output format is not modelled.
- The cache is a map from key to saved forest, and `Config::$compile` is a boolean parameter. A loaded entry is assumed to be a forest as the compiler builds it (`Sound`). Serialisation is not modelled.
- The `onInitialize` event is not modelled: it only notifies listeners.
- The `onAccessVerify` and `onAccessDenied` events are not modelled as callbacks. They become an oracle on the chain of frames, plus logs of the chains checked and the denials reported.
- The `onStartup` closure is returned as a `Startup` value. `RunStartup` runs it.
- `presenterFactory->getPresenterClass` is an oracle from presenter name to class name. A missing factory (which makes `$class` null) is not modelled.
- `getComponent` and `get_class` are a `Host` value (a child table and a class oracle).
- `formatActionMethod`/`formatRenderMethod`/`formatSignalMethod` are the fixed prefixes `action`, `render` and `handle` plus `ucfirst`.
- `$presenter->getRequest()` inside componentSignal is the request passed to presenterSignal.
- Case mapping (`lcfirst`, `ucfirst`, `mb_strtolower`), `ctype_alpha` and `\w` are ASCII only; Unicode letters are not modelled.
- PHP's loose `==` between strings (`isActionAccessed`) is modelled as string equality.
- Exceptions are `Result` errors:
  - `InvalidName` for the alphabetic check;
  - `GroupUndefined` for an undefined parent;
  - `InvalidLink` and `InvalidPresenter` for link destinations.
  An `AccessDenied` thrown by the hook is a `Some(message)` verdict.
- Acl.ACL.Access: the hook is taken to throw `AccessDenied` for the signal it was given, so the denial is built from that signal and the hook's message; in PHP the hook may pass any signal, and the exception code (401 by default) is not modelled.
- The annotation classes do not declare every field the mapping reads (`parent`, `id`, `message`, `options`). The model reads all of them from one class-annotation and one method-annotation record; an absent one is empty.
- The compiler builds resource and operation nodes with the Control and Action constructors, because the ACL calls `isAllowed`, `setParent` and the accession lookups on what the mapping returns. Mapping.php:165 and :176 construct Group and Access objects, which have none of these.
  - `Nodes.GroupIsControlWithoutIdOrMessage` shows that the two resource constructors agree on a `@Group` annotation.
  - `Nodes.AccessIsActionWithoutOwner` shows that the operation constructors differ only in the owner parent and the message.
- ACL.php:101 calls `getAction`, which no resource class defines. It is modelled as `getAccess` with the same type and suffix.
- ACL.php:221-228 calls `getActionByMethod`, which no class defines. It is modelled as the first accession declared by that method. An operation found by `findByClass` has no accessions here, so the item itself is returned.
- ACL.php:256 calls `getActions`, which no class defines. It is modelled as the accessions.
- Mapping.php:275 passes an undefined variable to the class lookup. `findByClass` is modelled as looking up its own argument.
- Mapping.php:313 and :325 look up an undefined variable. `getAccessByClass` and `getAccessByid` are modelled as looking up their own argument.
- Acl.ACL.GetMappingItemFound: the third method (`handle…`) is tried only for a signal link, as written. When that method is found but the first two are not, the contract names the result through `FirstByMethod` rather than restating the three branches.
- `getSignalByObject` and the remaining ACL accessors are not part of this model.
- Compiler.CreateGroups, Compiler.LinkClasses, Compiler.LinkOne, Compiler.CompiledRoots, Compiler.CompiledParentLink, Mappings.Mapping.Initialize: these link each class with the intended `$group->setParent($parent)` (see Findings). As written at Mapping.php:203 the child keeps no parent and the parent becomes its own parent; that behaviour is modelled only by `Nodes.LinkAsWritten`.
- Index.CreateMetaLists: starts from empty tables. Mapping.php:102 passes the undefined `$groupList`/`$accessList` by reference, so the defaults at :113 never apply; with no groups (or no operations) the lists stay null and the lookups at lines 258, 262, 274, 277, 311 and 323 call `array_key_exists` on null (a warning and NULL in PHP 7, a TypeError in PHP 8). The model answers "not found" there instead.
- Termination of the recursive parent and child walks is argued with ghost bounds: `CheckEndsWithin` (the walk of `isAllowed(TRUE)`, which follows only allowed nodes) and `ChainEndsWithin` for parents and `WithinHeight` for children. Both are derived from the link invariant; no fuel is used.

## Findings

| source | as written | input that shows it | evidently intended | confidence | as-written member | corrected member |
|---|---|---|---|---|---|---|
| src/Mapping.php:203 | `$parent->setParent($parent)` makes the parent its own parent and leaves the child without a parent | two classes A and B, where B declares parent A: after linking, A's parent is A and B's parent is null, so `isAllowed(TRUE)` on A recurses forever once A is allowed (a denied A answers FALSE) and B ignores A's denial | `$group->setParent($parent)`: the child receives the parent | not executed | Nodes.LinkAsWrittenBreaksChain | Nodes.LinkIntendedChainsChild |
