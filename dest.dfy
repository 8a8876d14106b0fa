/**
 * Link destinations of the form `Presenter:action` or `Presenter:signal!`
 * (src/ACL.php, getMappingItemByDest): the presenter part may itself hold
 * module prefixes separated by colons, so the split is at the last colon.
 */
module Destinations {
  import opened Wrappers
  import opened Text

  /** A parsed destination; `signal` records the trailing `!`. */
  datatype Dest = Dest(presenter: string, action: string, signal: bool)

  /** The two InvalidLinkException causes: a malformed destination, an unknown presenter. */
  datatype LinkError =
    | InvalidLink(dest: string)
    | InvalidPresenter(presenter: string)

  /** Every character is a word character (`\w`). */
  predicate WordChars(s: string)
  {
    forall i :: 0 <= i < |s| ==> IsWordChar(s[i])
  }

  /** Every character is a word character or a colon (`[\w:]`). */
  predicate PresenterChars(s: string)
  {
    forall i :: 0 <= i < |s| ==> IsWordChar(s[i]) || s[i] == ':'
  }

  /** The grammar: a non-empty presenter over `[\w:]` and an action over `\w`. */
  predicate WellFormed(d: Dest)
  {
    |d.presenter| > 0 && PresenterChars(d.presenter) && WordChars(d.action)
  }

  /** The text of a destination. */
  function FormatDest(d: Dest): string
  {
    d.presenter + ":" + d.action + (if d.signal then "!" else "")
  }

  /** The position of the last occurrence of `c`, if any. */
  function LastIndexOf(s: string, c: char): (r: Option<nat>)
    ensures r.Some? ==> r.value < |s| && s[r.value] == c && forall j :: r.value < j < |s| ==> s[j] != c
    ensures r.None? ==> forall j :: 0 <= j < |s| ==> s[j] != c
  {
    if s == [] then None
    else if s[|s| - 1] == c then Some(|s| - 1)
    else LastIndexOf(s[..|s| - 1], c)
  }

  /**
   * The destination pattern of getMappingItemByDest: an optional trailing
   * `!`, then a split at the last colon; anything else is an invalid link.
   */
  function ParseDest(s: string): Result<Dest, LinkError>
  {
    var signal := |s| > 0 && s[|s| - 1] == '!';
    var body := if signal then s[..|s| - 1] else s;
    match LastIndexOf(body, ':')
    case None => Err(InvalidLink(s))
    case Some(j) =>
      var d := Dest(body[..j], body[j + 1..], signal);
      if WellFormed(d) then Ok(d) else Err(InvalidLink(s))
  }

  /** Every well-formed destination is read back from its text. */
  lemma ParseFormat(d: Dest)
    requires WellFormed(d)
    ensures ParseDest(FormatDest(d)) == Ok(d)
  {
    var s := FormatDest(d);
    var body := d.presenter + ":" + d.action;
    var j := |d.presenter|;
    LastColon(d.presenter, d.action);
    assert body[..j] == d.presenter && body[j + 1..] == d.action;
    if d.signal {
      assert s == body + "!";
      assert s[|s| - 1] == '!' && s[..|s| - 1] == body;
    } else {
      assert s == body;
      assert !IsWordChar(':') && !IsWordChar('!');
      assert s[|s| - 1] != '!' by {
        if d.action == [] {
          assert s[|s| - 1] == ':';
        } else {
          assert s[|s| - 1] == d.action[|d.action| - 1];
        }
      }
    }
  }

  /** With an action over word characters, the last colon is the separator. */
  lemma LastColon(p: string, a: string)
    requires WordChars(a)
    ensures LastIndexOf(p + ":" + a, ':') == Some(|p|)
  {
    var body := p + ":" + a;
    var r := LastIndexOf(body, ':');
    assert body[|p|] == ':';
    assert r.Some?;
    var v := r.value;
    assert v >= |p|;
    assert !IsWordChar(':');
    assert body[|p| + 1..] == a;
    assert forall i :: 0 <= i < |a| ==> a[i] != ':';
  }

  /** Whatever is parsed is well formed and is exactly the text it came from. */
  lemma FormatParse(s: string)
    requires ParseDest(s).Ok?
    ensures WellFormed(ParseDest(s).value) && FormatDest(ParseDest(s).value) == s
  {
    var signal := |s| > 0 && s[|s| - 1] == '!';
    var body := if signal then s[..|s| - 1] else s;
    var j := LastIndexOf(body, ':').value;
    var d := Dest(body[..j], body[j + 1..], signal);
    assert ParseDest(s) == Ok(d);
    SplitAt(body, j);
    assert FormatDest(d) == body + (if signal then "!" else "");
    if signal {
      assert s == s[..|s| - 1] + [s[|s| - 1]];
    }
  }

  /** Cutting at a colon and joining again with a colon gives the text back. */
  lemma SplitAt(body: string, j: nat)
    requires j < |body| && body[j] == ':'
    ensures body[..j] + ":" + body[j + 1..] == body
  {
    assert body == body[..j] + [body[j]] + body[j + 1..];
  }

  /** A destination is rejected exactly when no well-formed destination has that text. */
  lemma ParseDestIff(s: string)
    ensures ParseDest(s).Err? <==> forall d :: WellFormed(d) ==> FormatDest(d) != s
    ensures ParseDest(s).Err? ==> ParseDest(s).error == InvalidLink(s)
  {
    if ParseDest(s).Ok? {
      FormatParse(s);
    } else {
      forall d | WellFormed(d) ensures FormatDest(d) != s {
        ParseFormat(d);
      }
    }
  }
}
