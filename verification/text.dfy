/** The string primitives the route handlers use on path parameters:
    `String.prototype.toLowerCase`, `startsWith` and `endsWith`. */
module Text {

  import opened Wrappers

  /** The lower-case mapping of one character, as far as it can change the
      outcome of a comparison against lower-case ASCII text: `A`..`Z` map to
      `a`..`z`, and KELVIN SIGN (U+212A) maps to `k`. Every other character is
      left as it is. */
  function LowerChar(c: char): (r: char)
    ensures 'A' <= c <= 'Z' ==> r as int == c as int + 32
    ensures c == '\U{212A}' ==> r == 'k'
    ensures !('A' <= c <= 'Z') && c != '\U{212A}' ==> r == c
  {
    if 'A' <= c <= 'Z' then (c as int + 32) as char
    else if c == '\U{212A}' then 'k'
    else c
  }

  /** A character that `LowerChar` leaves unchanged. */
  predicate IsLower(c: char) {
    LowerChar(c) == c
  }

  /** `s.toLowerCase()`: lower-cases every character, keeping the length. */
  function ToLower(s: string): (r: string)
    ensures |r| == |s|
    ensures forall i :: 0 <= i < |s| ==> r[i] == LowerChar(s[i])
  {
    if s == [] then [] else [LowerChar(s[0])] + ToLower(s[1..])
  }

  /** `s.startsWith(p)`. */
  predicate StartsWith(s: string, p: string) {
    |p| <= |s| && s[..|p|] == p
  }

  /** `s.endsWith(p)`. */
  predicate EndsWith(s: string, p: string) {
    |p| <= |s| && s[|s| - |p|..] == p
  }

  /** Lower-casing is idempotent, character by character. */
  lemma LowerCharIdempotent(c: char)
    ensures IsLower(LowerChar(c))
  {
  }

  /** Lower-casing a string twice is the same as lower-casing it once. */
  lemma ToLowerIdempotent(s: string)
    ensures ToLower(ToLower(s)) == ToLower(s)
  {
    var once := ToLower(s);
    var twice := ToLower(once);
    forall i | 0 <= i < |s|
      ensures twice[i] == once[i]
    {
      LowerCharIdempotent(s[i]);
    }
  }

  /** A case-insensitive prefix test against a lower-case pattern looks at
      exactly the first `|p|` characters, each compared after lower-casing. */
  lemma StartsWithIgnoringCase(s: string, p: string)
    requires forall i :: 0 <= i < |p| ==> IsLower(p[i])
    ensures StartsWith(ToLower(s), p)
        <==> |p| <= |s| && forall i :: 0 <= i < |p| ==> LowerChar(s[i]) == p[i]
  {
    var l := ToLower(s);
    if |p| <= |s| && forall i :: 0 <= i < |p| ==> LowerChar(s[i]) == p[i] {
      assert l[..|p|] == p;
    }
  }

  /** A string that starts with an all-lower-case pattern still starts with
      it once lower-cased. */
  lemma LowerKeepsPrefix(s: string, p: string)
    requires forall i :: 0 <= i < |p| ==> IsLower(p[i])
    requires StartsWith(s, p)
    ensures StartsWith(ToLower(s), p)
  {
    assert forall i :: 0 <= i < |p| ==> s[i] == s[..|p|][i];
    StartsWithIgnoringCase(s, p);
  }

  /** A case-insensitive suffix test against a lower-case pattern looks at
      exactly the last `|p|` characters, each compared after lower-casing. */
  lemma EndsWithIgnoringCase(s: string, p: string)
    requires forall i :: 0 <= i < |p| ==> IsLower(p[i])
    ensures EndsWith(ToLower(s), p)
        <==> |p| <= |s| && forall i :: 0 <= i < |p| ==> LowerChar(s[|s| - |p| + i]) == p[i]
  {
    if |p| <= |s| {
      var k := |s| - |p|;
      var tail := ToLower(s)[k..];
      assert |tail| == |p|;
      assert forall i :: 0 <= i < |p| ==> tail[i] == LowerChar(s[k + i]);
      assert tail == p <==> forall i :: 0 <= i < |p| ==> tail[i] == p[i];
    }
  }

  // ---------------------------------------------------------------------------
  // Splitting at a separator character
  //
  // The handlers never split or join text themselves; these helpers serve the
  // strict version reader, which cuts a version at `-`, `+` and `.`.

  /** The position of the first occurrence of `c` in `s`, if any. */
  function IndexOf(s: string, c: char): (r: Option<nat>)
    ensures r.None? <==> c !in s
    ensures r.Some? ==> r.value < |s| && s[r.value] == c && c !in s[..r.value]
  {
    if s == [] then None
    else if s[0] == c then Some(0)
    else match IndexOf(s[1..], c)
      case None => None
      case Some(i) => Some(i + 1)
  }

  /** The pieces of `s` between occurrences of `sep`: never empty, and no
      piece holds the separator. */
  function Split(s: string, sep: char): (parts: seq<string>)
    ensures |parts| >= 1
    ensures forall i :: 0 <= i < |parts| ==> sep !in parts[i]
    decreases |s|
  {
    match IndexOf(s, sep)
    case None => [s]
    case Some(i) => [s[..i]] + Split(s[i + 1..], sep)
  }

  /** The pieces joined with `sep` between them. */
  function Join(parts: seq<string>, sep: char): string
  {
    if parts == [] then []
    else if |parts| == 1 then parts[0]
    else parts[0] + [sep] + Join(parts[1..], sep)
  }

  /** A non-empty first piece starts where the string starts. */
  lemma SplitFirstStart(s: string, sep: char)
    requires |Split(s, sep)[0]| > 0
    ensures |s| > 0 && Split(s, sep)[0][0] == s[0]
  {
  }

  /** The first separator of `a + [c] + b`, when `a` holds none, sits right after `a`. */
  lemma IndexOfAfter(a: string, c: char, b: string)
    requires c !in a
    ensures IndexOf(a + [c] + b, c) == Some(|a|)
  {
    var s := a + [c] + b;
    assert s[|a|] == c;
    assert s[..|a|] == a;
  }

  /** A string is its prefix, the character at `i`, and its suffix. */
  lemma AroundIndex(s: string, i: nat)
    requires i < |s|
    ensures s == s[..i] + [s[i]] + s[i + 1..]
  {
  }

  /** Splitting at a first separator gives the piece before it, then the
      pieces of the rest. */
  lemma SplitAtFirst(a: string, sep: char, b: string)
    requires sep !in a
    ensures Split(a + [sep] + b, sep) == [a] + Split(b, sep)
  {
    var s := a + [sep] + b;
    IndexOfAfter(a, sep, b);
    assert s[..|a|] == a;
    assert s[|a| + 1..] == b;
  }

  /** Splitting undoes joining, as long as no piece holds the separator. */
  lemma {:induction false} SplitJoin(parts: seq<string>, sep: char)
    requires |parts| >= 1
    requires forall i :: 0 <= i < |parts| ==> sep !in parts[i]
    ensures Split(Join(parts, sep), sep) == parts
  {
    if |parts| == 1 {
      assert Join(parts, sep) == parts[0];
    } else {
      var rest := Join(parts[1..], sep);
      assert Join(parts, sep) == parts[0] + [sep] + rest;
      SplitAtFirst(parts[0], sep, rest);
      SplitJoin(parts[1..], sep);
      assert parts == [parts[0]] + parts[1..];
    }
  }

  /** Joining undoes splitting. */
  lemma {:induction false} JoinSplit(s: string, sep: char)
    ensures Join(Split(s, sep), sep) == s
    decreases |s|
  {
    match IndexOf(s, sep)
    case None =>
    case Some(i) =>
      var tail := Split(s[i + 1..], sep);
      JoinSplit(s[i + 1..], sep);
      assert Split(s, sep) == [s[..i]] + tail;
      assert ([s[..i]] + tail)[1..] == tail;
      assert s == s[..i] + [sep] + s[i + 1..];
  }
}
