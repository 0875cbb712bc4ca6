/** The text form of a version, per the grammar of Semantic Versioning 2.0.0
    (sections 2, 9 and 10): `Parse` accepts exactly the strings the grammar
    admits and `Format` writes a version back. This is a strict reference
    reading of `semver.valid`. */
module SemVerSyntax {

  import opened Wrappers
  import opened Text
  import opened SemVer

  predicate IsDigit(c: char) {
    '0' <= c <= '9'
  }

  /** Characters allowed in identifiers: `[0-9A-Za-z-]`. */
  predicate IsIdentChar(c: char) {
    IsDigit(c) || 'a' <= c <= 'z' || 'A' <= c <= 'Z' || c == '-'
  }

  predicate AllDigits(s: string) {
    forall i :: 0 <= i < |s| ==> IsDigit(s[i])
  }

  /** A numeric identifier: `0`, or digits not starting with `0`. */
  predicate IsNumericIdentifier(s: string) {
    |s| >= 1 && AllDigits(s) && (|s| == 1 || s[0] != '0')
  }

  /** An alphanumeric identifier: identifier characters, at least one of them
      not a digit. */
  predicate IsAlphanumericIdentifier(s: string) {
    && |s| >= 1
    && (forall i :: 0 <= i < |s| ==> IsIdentChar(s[i]))
    && exists i :: 0 <= i < |s| && !IsDigit(s[i])
  }

  /** A build identifier: non-empty identifier characters (leading zeros allowed). */
  predicate IsBuildIdentifier(s: string) {
    |s| >= 1 && forall i :: 0 <= i < |s| ==> IsIdentChar(s[i])
  }

  // ---------------------------------------------------------------------------
  // Decimal numerals

  /** The value of a string of decimal digits. */
  function Value(s: string): nat
    requires AllDigits(s)
  {
    if s == [] then 0 else Value(s[..|s| - 1]) * 10 + (s[|s| - 1] as int - '0' as int)
  }

  /** The decimal numeral of `n`, without leading zeros. */
  function NatToString(n: nat): (s: string)
    ensures IsNumericIdentifier(s)
    ensures s[0] == '0' ==> n == 0
  {
    var d := [('0' as int + n % 10) as char];
    if n < 10 then d else NatToString(n / 10) + d
  }

  /** Reading a numeral back gives its number. */
  lemma {:induction false} ValueOfNatToString(n: nat)
    ensures Value(NatToString(n)) == n
  {
    var s := NatToString(n);
    if n >= 10 {
      ValueOfNatToString(n / 10);
      assert s[..|s| - 1] == NatToString(n / 10);
    }
  }

  lemma {:induction false} ValuePositive(s: string)
    requires IsNumericIdentifier(s) && s[0] != '0'
    ensures Value(s) >= 1
    decreases |s|
  {
    if |s| > 1 {
      ValuePositive(s[..|s| - 1]);
    }
  }

  /** Writing the value of a numeric identifier gives the identifier back. */
  lemma {:induction false} NatToStringOfValue(s: string)
    requires IsNumericIdentifier(s)
    ensures NatToString(Value(s)) == s
    decreases |s|
  {
    if |s| > 1 {
      var p := s[..|s| - 1];
      ValuePositive(p);
      NatToStringOfValue(p);
      assert s == p + [s[|s| - 1]];
    }
  }

  // ---------------------------------------------------------------------------
  // Identifiers

  /** An identifier as it is written. */
  function IdentifierText(id: Identifier): string {
    match id
    case Numeric(n) => NatToString(n)
    case Alphanumeric(s) => s
  }

  /** A pre-release identifier the grammar can produce. */
  predicate WellFormedIdentifier(id: Identifier) {
    id.Alphanumeric? ==> IsAlphanumericIdentifier(id.s)
  }

  predicate AllWellFormedIdentifiers(ids: seq<Identifier>) {
    forall i :: 0 <= i < |ids| ==> WellFormedIdentifier(ids[i])
  }

  predicate AllBuildIdentifiers(parts: seq<string>) {
    forall i :: 0 <= i < |parts| ==> IsBuildIdentifier(parts[i])
  }

  /** A version whose identifiers the grammar can produce. */
  predicate WellFormed(v: Version) {
    AllWellFormedIdentifiers(v.pre) && AllBuildIdentifiers(v.build)
  }

  /** The written form of each identifier in a list. */
  function IdentifierTexts(ids: seq<Identifier>): (ts: seq<string>)
    ensures |ts| == |ids|
    ensures forall i :: 0 <= i < |ids| ==> ts[i] == IdentifierText(ids[i])
  {
    seq(|ids|, i requires 0 <= i < |ids| => IdentifierText(ids[i]))
  }

  /** The texts of a list are the first identifier's text, then the rest's. */
  lemma ConsTexts(id: Identifier, ids: seq<Identifier>, parts: seq<string>)
    requires parts != [] && IdentifierText(id) == parts[0] && IdentifierTexts(ids) == parts[1..]
    ensures IdentifierTexts([id] + ids) == parts
  {
    var all := [id] + ids;
    var ts := IdentifierTexts(all);
    assert |ts| == |parts|;
    forall i | 0 <= i < |parts|
      ensures ts[i] == parts[i]
    {
      if i > 0 {
        assert all[i] == ids[i - 1];
        assert IdentifierTexts(ids)[i - 1] == parts[i];
      }
    }
  }

  /** A list is well formed when its first identifier and the rest are. */
  lemma ConsWellFormed(id: Identifier, ids: seq<Identifier>)
    requires WellFormedIdentifier(id) && AllWellFormedIdentifiers(ids)
    ensures AllWellFormedIdentifiers([id] + ids)
  {
    var all := [id] + ids;
    forall i | 0 <= i < |all|
      ensures WellFormedIdentifier(all[i])
    {
      if i > 0 {
        assert all[i] == ids[i - 1];
      }
    }
  }

  /** Dropping the first identifier drops the first text. */
  lemma IdentifierTextsTail(ids: seq<Identifier>)
    requires ids != []
    ensures IdentifierTexts(ids)[0] == IdentifierText(ids[0])
    ensures IdentifierTexts(ids)[1..] == IdentifierTexts(ids[1..])
  {
  }

  /** Reads one pre-release identifier. */
  function ParseIdentifier(s: string): (r: Option<Identifier>)
    ensures r.Some? ==> WellFormedIdentifier(r.value) && IdentifierText(r.value) == s
  {
    if IsNumericIdentifier(s) then
      NatToStringOfValue(s);
      Some(Numeric(Value(s)))
    else if IsAlphanumericIdentifier(s) then Some(Alphanumeric(s))
    else None
  }

  /** Reads a list of pre-release identifiers; fails if any one fails. */
  function ParseIdentifiers(parts: seq<string>): (r: Option<seq<Identifier>>)
    ensures r.Some? ==> AllWellFormedIdentifiers(r.value) && IdentifierTexts(r.value) == parts
  {
    if parts == [] then Some([])
    else match ParseIdentifier(parts[0])
      case None => None
      case Some(id) =>
        match ParseIdentifiers(parts[1..])
        case None => None
        case Some(ids) =>
          ConsTexts(id, ids, parts);
          ConsWellFormed(id, ids);
          Some([id] + ids)
  }

  // ---------------------------------------------------------------------------
  // Versions

  /** `major.minor.patch`. */
  function CoreText(v: Version): string {
    Join([NatToString(v.major), NatToString(v.minor), NatToString(v.patch)], '.')
  }

  /** The core, then `-` and the pre-release identifiers when there are any. */
  function MainText(v: Version): string {
    CoreText(v) + (if v.pre == [] then "" else "-" + Join(IdentifierTexts(v.pre), '.'))
  }

  /** The text of a version: the main part, then `+` and the build
      identifiers when there are any. */
  function Format(v: Version): string {
    MainText(v) + (if v.build == [] then "" else "+" + Join(v.build, '.'))
  }

  /** Reads `major.minor.patch`. */
  function ParseCore(c: string, pre: seq<Identifier>, build: seq<string>): Option<Version> {
    var parts := Split(c, '.');
    if |parts| == 3 && IsNumericIdentifier(parts[0]) && IsNumericIdentifier(parts[1])
       && IsNumericIdentifier(parts[2])
    then Some(Version(Value(parts[0]), Value(parts[1]), Value(parts[2]), pre, build))
    else None
  }

  /** Reads the part before any `+`: the core, then after the first `-` the
      pre-release identifiers. */
  function ParseMain(m: string, build: seq<string>): Option<Version> {
    match IndexOf(m, '-')
    case None => ParseCore(m, [], build)
    case Some(i) =>
      match ParseIdentifiers(Split(m[i + 1..], '.'))
      case None => None
      case Some(pre) => ParseCore(m[..i], pre, build)
  }

  /** Reads a version, or `None` when the text is not a semantic version. */
  function Parse(s: string): Option<Version> {
    match IndexOf(s, '+')
    case None => ParseMain(s, [])
    case Some(i) =>
      var build := Split(s[i + 1..], '.');
      if AllBuildIdentifiers(build) then ParseMain(s[..i], build) else None
  }

  /** `semver.valid`, read strictly. */
  predicate Valid(s: string) {
    Parse(s).Some?
  }

  // ---------------------------------------------------------------------------
  // Round trips

  lemma {:induction false} CharNotInJoin(parts: seq<string>, sep: char, c: char)
    requires c != sep
    requires forall i :: 0 <= i < |parts| ==> c !in parts[i]
    ensures c !in Join(parts, sep)
  {
    if |parts| > 1 {
      CharNotInJoin(parts[1..], sep, c);
    }
  }

  lemma NotInNumeral(n: nat, c: char)
    requires !IsDigit(c)
    ensures c !in NatToString(n)
  {
  }

  /** The core text holds only digits and dots. */
  lemma NotInCore(v: Version, c: char)
    requires !IsDigit(c) && c != '.'
    ensures c !in CoreText(v)
  {
    NotInNumeral(v.major, c);
    NotInNumeral(v.minor, c);
    NotInNumeral(v.patch, c);
    CharNotInJoin([NatToString(v.major), NatToString(v.minor), NatToString(v.patch)], '.', c);
  }

  /** Identifier texts hold only identifier characters. */
  lemma NotInIdentifierTexts(ids: seq<Identifier>, c: char)
    requires forall i :: 0 <= i < |ids| ==> WellFormedIdentifier(ids[i])
    requires !IsIdentChar(c)
    ensures forall i :: 0 <= i < |ids| ==> c !in IdentifierTexts(ids)[i]
  {
    forall i | 0 <= i < |ids|
      ensures c !in IdentifierTexts(ids)[i]
    {
      match ids[i]
      case Numeric(n) => NotInNumeral(n, c);
      case Alphanumeric(t) =>
    }
  }

  lemma NotInBuild(build: seq<string>, c: char)
    requires forall i :: 0 <= i < |build| ==> IsBuildIdentifier(build[i])
    requires !IsIdentChar(c)
    ensures forall i :: 0 <= i < |build| ==> c !in build[i]
  {
  }

  lemma ParseIdentifierText(id: Identifier)
    requires WellFormedIdentifier(id)
    ensures ParseIdentifier(IdentifierText(id)) == Some(id)
  {
    match id
    case Numeric(n) => ValueOfNatToString(n);
    case Alphanumeric(t) =>
      var k :| 0 <= k < |t| && !IsDigit(t[k]);
      assert !AllDigits(t);
  }

  /** A list is read as its first identifier followed by the rest. */
  lemma ReadsFirstThenRest(parts: seq<string>, id: Identifier, ids: seq<Identifier>)
    requires parts != []
    requires ParseIdentifier(parts[0]) == Some(id) && ParseIdentifiers(parts[1..]) == Some(ids)
    ensures ParseIdentifiers(parts) == Some([id] + ids)
  {
  }

  lemma {:induction false} ParseIdentifierTexts(ids: seq<Identifier>)
    requires AllWellFormedIdentifiers(ids)
    ensures ParseIdentifiers(IdentifierTexts(ids)) == Some(ids)
  {
    if ids != [] {
      IdentifierTextsTail(ids);
      assert WellFormedIdentifier(ids[0]);
      ParseIdentifierText(ids[0]);
      ParseIdentifierTexts(ids[1..]);
      ReadsFirstThenRest(IdentifierTexts(ids), ids[0], ids[1..]);
      assert ids == [ids[0]] + ids[1..];
    }
  }

  lemma ParseCoreText(v: Version, pre: seq<Identifier>, build: seq<string>)
    ensures ParseCore(CoreText(v), pre, build) == Some(Version(v.major, v.minor, v.patch, pre, build))
  {
    var nums := [NatToString(v.major), NatToString(v.minor), NatToString(v.patch)];
    NotInNumeral(v.major, '.');
    NotInNumeral(v.minor, '.');
    NotInNumeral(v.patch, '.');
    SplitJoin(nums, '.');
    ValueOfNatToString(v.major);
    ValueOfNatToString(v.minor);
    ValueOfNatToString(v.patch);
  }

  /** The text after `a` and a separator `c`, when `a` holds no `c`. */
  lemma SplitAt(a: string, c: char, b: string)
    requires c !in a
    ensures IndexOf(a + [c] + b, c) == Some(|a|)
    ensures (a + [c] + b)[..|a|] == a
    ensures (a + [c] + b)[|a| + 1..] == b
  {
    IndexOfAfter(a, c, b);
  }

  /** The main part of a well-formed version holds no '+'. */
  lemma PlusNotInMain(v: Version)
    requires WellFormed(v)
    ensures '+' !in MainText(v)
  {
    NotInCore(v, '+');
    NotInIdentifierTexts(v.pre, '+');
    CharNotInJoin(IdentifierTexts(v.pre), '.', '+');
  }

  /** The pre-release text of well-formed identifiers reads back. */
  lemma PreTextReads(pre: seq<Identifier>)
    requires pre != []
    requires forall i :: 0 <= i < |pre| ==> WellFormedIdentifier(pre[i])
    ensures ParseIdentifiers(Split(Join(IdentifierTexts(pre), '.'), '.')) == Some(pre)
  {
    NotInIdentifierTexts(pre, '.');
    SplitJoin(IdentifierTexts(pre), '.');
    ParseIdentifierTexts(pre);
  }

  /** A main part with its first `-` after `core` reads the identifiers
      after it and the core before it. */
  lemma ParseMainAt(core: string, preText: string, build: seq<string>)
    requires '-' !in core
    ensures ParseMain(core + ['-'] + preText, build)
         == match ParseIdentifiers(Split(preText, '.'))
            case None => None
            case Some(pre) => ParseCore(core, pre, build)
  {
    SplitAt(core, '-', preText);
  }

  lemma ParseMainTextWithPre(v: Version, build: seq<string>)
    requires WellFormed(v) && v.pre != []
    ensures ParseMain(MainText(v), build) == Some(v.(build := build))
  {
    var core := CoreText(v);
    var preText := Join(IdentifierTexts(v.pre), '.');
    NotInCore(v, '-');
    MainTextWithPre(v);
    ParseMainAt(core, preText, build);
    PreTextReads(v.pre);
    ParseCoreText(v, v.pre, build);
  }

  lemma ParseMainTextWithoutPre(v: Version, build: seq<string>)
    requires v.pre == []
    ensures ParseMain(MainText(v), build) == Some(v.(build := build))
  {
    NotInCore(v, '-');
    assert MainText(v) == CoreText(v);
    ParseCoreText(v, [], build);
  }

  /** The main part of a well-formed version reads back. */
  lemma ParseMainText(v: Version, build: seq<string>)
    requires WellFormed(v)
    ensures ParseMain(MainText(v), build) == Some(v.(build := build))
  {
    if v.pre != [] {
      ParseMainTextWithPre(v, build);
    } else {
      ParseMainTextWithoutPre(v, build);
    }
  }

  lemma FormatParseWithoutBuild(v: Version)
    requires WellFormed(v) && v.build == []
    ensures Parse(Format(v)) == Some(v)
  {
    PlusNotInMain(v);
    ParseMainText(v, v.build);
    assert Format(v) == MainText(v);
  }

  lemma FormatParseWithBuild(v: Version)
    requires WellFormed(v) && v.build != []
    ensures Parse(Format(v)) == Some(v)
  {
    var main := MainText(v);
    var buildText := Join(v.build, '.');
    PlusNotInMain(v);
    ParseMainText(v, v.build);
    SplitAt(main, '+', buildText);
    FormatWithBuild(v);
    NotInBuild(v.build, '.');
    SplitJoin(v.build, '.');
    assert Parse(Format(v)) == ParseMain(main, v.build);
  }

  /** Formatting then parsing gives back every well-formed version. */
  lemma FormatParse(v: Version)
    requires WellFormed(v)
    ensures Parse(Format(v)) == Some(v)
  {
    if v.build == [] {
      FormatParseWithoutBuild(v);
    } else {
      FormatParseWithBuild(v);
    }
  }

  lemma ParseCoreInverse(c: string, pre: seq<Identifier>, build: seq<string>)
    requires ParseCore(c, pre, build).Some?
    ensures var w := ParseCore(c, pre, build).value;
      w.pre == pre && w.build == build && CoreText(w) == c
  {
    var parts := Split(c, '.');
    NatToStringOfValue(parts[0]);
    NatToStringOfValue(parts[1]);
    NatToStringOfValue(parts[2]);
    JoinSplit(c, '.');
    assert parts == [parts[0], parts[1], parts[2]];
  }

  lemma MainTextWithPre(w: Version)
    requires w.pre != []
    ensures MainText(w) == CoreText(w) + "-" + Join(IdentifierTexts(w.pre), '.')
  {
  }

  lemma FormatWithBuild(v: Version)
    requires v.build != []
    ensures Format(v) == MainText(v) + ['+'] + Join(v.build, '.')
  {
  }

  lemma ParseCoreWithPre(m: string, j: nat, pre: seq<Identifier>, build: seq<string>)
    requires j < |m| && m[j] == '-'
    requires ParseCore(m[..j], pre, build).Some?
    requires pre != [] && Join(IdentifierTexts(pre), '.') == m[j + 1..]
    ensures var w := ParseCore(m[..j], pre, build).value;
      w.build == build && w.pre == pre && MainText(w) == m
  {
    var w := ParseCore(m[..j], pre, build).value;
    ParseCoreInverse(m[..j], pre, build);
    MainTextWithPre(w);
    Reassemble(m, j, '-', Join(IdentifierTexts(pre), '.'));
  }

  /** With a `-` at `j`, the main part reads the identifiers after it and the core before it. */
  lemma ParseMainReadsPre(m: string, j: nat, build: seq<string>)
    requires IndexOf(m, '-') == Some(j)
    requires ParseMain(m, build).Some?
    ensures ParseIdentifiers(Split(m[j + 1..], '.')).Some?
    ensures ParseMain(m, build) == ParseCore(m[..j], ParseIdentifiers(Split(m[j + 1..], '.')).value, build)
  {
  }

  lemma ParseMainInverseWithPre(m: string, j: nat, build: seq<string>)
    requires IndexOf(m, '-') == Some(j)
    requires ParseMain(m, build).Some?
    ensures var w := ParseMain(m, build).value;
      w.build == build && AllWellFormedIdentifiers(w.pre) && MainText(w) == m
  {
    var preText := m[j + 1..];
    ParseMainReadsPre(m, j, build);
    var pre := ParseIdentifiers(Split(preText, '.')).value;
    JoinSplit(preText, '.');
    ParseCoreWithPre(m, j, pre, build);
  }

  /** An accepted main part is exactly the main text of what it reads as. */
  lemma ParseMainInverse(m: string, build: seq<string>)
    requires ParseMain(m, build).Some?
    ensures var w := ParseMain(m, build).value;
      w.build == build && AllWellFormedIdentifiers(w.pre) && MainText(w) == m
  {
    match IndexOf(m, '-')
    case None =>
      ParseCoreInverse(m, [], build);
    case Some(j) =>
      ParseMainInverseWithPre(m, j, build);
  }

  lemma ParseFormatWithoutBuild(s: string)
    requires IndexOf(s, '+').None?
    requires Parse(s).Some?
    ensures WellFormed(Parse(s).value)
    ensures Format(Parse(s).value) == s
  {
    assert Parse(s) == ParseMain(s, []);
    ParseMainInverse(s, []);
  }

  /** A text cut around position `i` is the part before, the character there, and the rest. */
  lemma Reassemble(s: string, i: nat, c: char, rest: string)
    requires i < |s| && s[i] == c && rest == s[i + 1..]
    ensures s[..i] + [c] + rest == s
  {
    AroundIndex(s, i);
  }

  lemma ParseMainFormat(m: string, build: seq<string>)
    requires ParseMain(m, build).Some?
    requires build != [] && AllBuildIdentifiers(build)
    ensures WellFormed(ParseMain(m, build).value)
    ensures Format(ParseMain(m, build).value) == m + ['+'] + Join(build, '.')
  {
    var w := ParseMain(m, build).value;
    ParseMainInverse(m, build);
    FormatWithBuild(w);
  }

  lemma ParseFormatWithBuild(s: string, i: nat)
    requires IndexOf(s, '+') == Some(i)
    requires Parse(s).Some?
    ensures WellFormed(Parse(s).value)
    ensures Format(Parse(s).value) == s
  {
    var buildText := s[i + 1..];
    var build := Split(buildText, '.');
    assert Parse(s) == ParseMain(s[..i], build) && AllBuildIdentifiers(build);
    ParseMainFormat(s[..i], build);
    JoinSplit(buildText, '.');
    Reassemble(s, i, '+', Join(build, '.'));
  }

  /** Every accepted text is well formed and is exactly the formatted version. */
  lemma ParseFormat(s: string)
    requires Parse(s).Some?
    ensures WellFormed(Parse(s).value)
    ensures Format(Parse(s).value) == s
  {
    match IndexOf(s, '+')
    case None =>
      ParseFormatWithoutBuild(s);
    case Some(i) =>
      ParseFormatWithBuild(s, i);
  }

  /** The reader reads every well-formed version back from its text. */
  lemma FormatParseAll()
    ensures forall v :: WellFormed(v) ==> Parse(Format(v)) == Some(v)
  {
    forall v | WellFormed(v)
      ensures Parse(Format(v)) == Some(v)
    {
      FormatParse(v);
    }
  }

  /** The reader accepts only texts of well-formed versions, each exactly
      the text of what it reads as. */
  lemma ParseFormatAll()
    ensures forall s :: Parse(s).Some? ==> WellFormed(Parse(s).value) && Format(Parse(s).value) == s
  {
    forall s | Parse(s).Some?
      ensures WellFormed(Parse(s).value) && Format(Parse(s).value) == s
    {
      ParseFormat(s);
    }
  }

  // ---------------------------------------------------------------------------
  // Refusals

  lemma ParseCoreStartsWithDigit(c: string, pre: seq<Identifier>, build: seq<string>)
    requires ParseCore(c, pre, build).Some?
    ensures |c| > 0 && IsDigit(c[0])
  {
    SplitFirstStart(c, '.');
  }

  lemma ParseMainStartsWithDigit(m: string, build: seq<string>)
    requires ParseMain(m, build).Some?
    ensures |m| > 0 && IsDigit(m[0])
  {
    match IndexOf(m, '-')
    case None =>
      ParseCoreStartsWithDigit(m, [], build);
    case Some(j) =>
      var pre := ParseIdentifiers(Split(m[j + 1..], '.')).value;
      ParseCoreStartsWithDigit(m[..j], pre, build);
      assert m[..j][0] == m[0];
  }

  /** Every semantic version starts with a digit of its major version. */
  lemma ValidStartsWithDigit(s: string)
    requires Valid(s)
    ensures |s| > 0 && IsDigit(s[0])
  {
    match IndexOf(s, '+')
    case None =>
      ParseMainStartsWithDigit(s, []);
    case Some(i) =>
      ParseMainStartsWithDigit(s[..i], Split(s[i + 1..], '.'));
      assert s[..i][0] == s[0];
  }
}
