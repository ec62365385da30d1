/** Kext version strings: `OSKextParseVersionString` and `OSKextVersionGetString`. */
module KextVersion {

  const MAJOR_DIGITS := 4
  const MINOR_DIGITS := 4
  const REVISION_DIGITS := 4
  const STAGE_LEVEL_DIGITS := 3
  const MAJOR_MAX := 9999
  const MINOR_MAX := 9999
  const REVISION_MAX := 9999
  const STAGE_LEVEL_MAX := 255
  const MAJOR_MULT := 1_000_000_000_000
  const MINOR_MULT := 100_000_000
  const REVISION_MULT := 10_000
  const STAGE_MULT := 1_000
  const MAX_LENGTH := 20

  const INVALID := 0
  const DEVELOPMENT := 1
  const ALPHA := 3
  const BETA := 5
  const CANDIDATE := 7
  const RELEASE := 9

  datatype Version = Version(major: int, minor: int, revision: int, stage: int, level: int)
  datatype Parsed = Bad | Good(v: Version)

  // ---------- Characters ----------

  predicate IsDigit(c: char) { '0' <= c <= '9' }

  predicate IsSpace(c: char) { c == ' ' || c == '\t' || c == '\r' || c == '\n' }

  /** A version ends at white space or at the terminating NUL. */
  predicate IsEnd(c: char) { IsSpace(c) || c == '\0' }

  function Digit(c: char): int
    requires IsDigit(c)
  {
    c as int - '0' as int
  }

  /** The first character of a C string. */
  function First(s: string): char { if s == [] then '\0' else s[0] }

  /** How many digits `s` starts with, at most `k`. */
  function Span(s: string, k: nat): (n: nat)
    ensures n <= k && n <= |s|
    ensures forall i :: 0 <= i < n ==> IsDigit(s[i])
    ensures n < k ==> !IsDigit(First(s[n..]))
  {
    if k == 0 || !IsDigit(First(s)) then 0 else 1 + Span(s[1..], k - 1)
  }

  /** The number written by the first `n` characters of `s`. */
  function Number(s: string, n: nat): (x: int)
    requires n <= |s| && forall i :: 0 <= i < n ==> IsDigit(s[i])
    ensures 0 <= x && (n <= 4 ==> x <= [0, 9, 99, 999, 9999][n])
  {
    if n == 0 then 0 else Number(s, n - 1) * 10 + Digit(s[n - 1])
  }

  // ---------- The grammar of versions ----------

  predicate HasName(stage: int) {
    stage in {DEVELOPMENT, ALPHA, BETA, CANDIDATE, RELEASE}
  }

  /** The fields before the stage are in range. */
  predicate InRange(v: Version) {
    0 <= v.major <= MAJOR_MAX && 0 <= v.minor <= MINOR_MAX && 0 <= v.revision <= REVISION_MAX
  }

  /** The versions a text can denote. */
  predicate Canonical(v: Version) {
    && InRange(v) && HasName(v.stage)
    && 0 <= v.level <= STAGE_LEVEL_MAX
    && (v.stage == RELEASE ==> v.level == 0)
    && (v.stage == CANDIDATE ==> v.level > 0)
  }

  /** The stage a text starts with and the length of its name; INVALID for none. */
  function StageAt(s: string): (int, int) {
    if |s| < 2 then (INVALID, 0)
    else if s[0] == 'd' && IsDigit(s[1]) then (DEVELOPMENT, 1)
    else if s[0] == 'a' && IsDigit(s[1]) then (ALPHA, 1)
    else if s[0] == 'b' && IsDigit(s[1]) then (BETA, 1)
    else if s[0] == 'f' && IsDigit(s[1]) then (CANDIDATE, 1)
    else if s[0] == 'f' && s[1] == 'c' && |s| > 2 && IsDigit(s[2]) then (CANDIDATE, 2)
    else (INVALID, 0)
  }

  function ParseLevel(s: string, v: Version): Parsed {
    var n := Span(s, STAGE_LEVEL_DIGITS);
    var level := Number(s, n);
    if n == 0 || !IsEnd(First(s[n..])) || level > STAGE_LEVEL_MAX then Bad
    else if v.stage == CANDIDATE && level == 0 then Bad
    else Good(v.(level := level))
  }

  function ParseStage(s: string, v: Version): Parsed {
    if IsEnd(First(s)) then Good(v.(stage := RELEASE))
    else
      var (stage, n) := StageAt(s);
      if stage == INVALID then Bad else ParseLevel(s[n..], v.(stage := stage))
  }

  function ParseRevision(s: string, v: Version): Parsed {
    var n := Span(s, REVISION_DIGITS);
    var w := v.(revision := Number(s, n));
    // After four digits, and only then, a period may stand before the stage.
    if n == REVISION_DIGITS && First(s[n..]) == '.' then ParseStage(s[n + 1..], w)
    else ParseStage(s[n..], w)
  }

  function ParseMinor(s: string, v: Version): Parsed {
    var n := Span(s, MINOR_DIGITS);
    var w := v.(minor := Number(s, n));
    if First(s[n..]) == '.' then ParseRevision(s[n + 1..], w) else ParseStage(s[n..], w)
  }

  function ParseMajor(s: string): Parsed {
    var n := Span(s, MAJOR_DIGITS);
    var w := Version(Number(s, n), 0, 0, INVALID, 0);
    if n == 0 then Bad
    else if First(s[n..]) == '.' then ParseMinor(s[n + 1..], w)
    else ParseStage(s[n..], w)
  }

  function Encode(v: Version): int {
    v.major * MAJOR_MULT + v.minor * MINOR_MULT + v.revision * REVISION_MULT + v.stage * STAGE_MULT + v.level
  }

  function Parse(s: string): int {
    match ParseMajor(s)
    case Bad => -1
    case Good(v) => Encode(v)
  }

  // ---------- Parsed versions and their order ----------

  lemma StageCanonical(s: string, v: Version)
    requires InRange(v) && v.level == 0 && ParseStage(s, v).Good?
    ensures Canonical(ParseStage(s, v).v)
  {
    hide Span, Number;
  }

  lemma RevisionCanonical(s: string, v: Version)
    requires InRange(v) && v.level == 0 && ParseRevision(s, v).Good?
    ensures Canonical(ParseRevision(s, v).v)
  {
    hide Span, Number, ParseStage, Canonical;
    var n := Span(s, REVISION_DIGITS);
    var at := if n == REVISION_DIGITS && First(s[n..]) == '.' then n + 1 else n;
    StageCanonical(s[at..], v.(revision := Number(s, n)));
  }

  lemma MinorCanonical(s: string, v: Version)
    requires InRange(v) && v.level == 0 && ParseMinor(s, v).Good?
    ensures Canonical(ParseMinor(s, v).v)
  {
    hide Span, Number, ParseStage, ParseRevision, Canonical;
    var n := Span(s, MINOR_DIGITS);
    var w := v.(minor := Number(s, n));
    if First(s[n..]) == '.' {
      RevisionCanonical(s[n + 1..], w);
    } else {
      StageCanonical(s[n..], w);
    }
  }

  /** An accepted text denotes a version in range with a named stage and a fitting level. */
  lemma ParseCanonical(s: string)
    ensures ParseMajor(s).Good? ==> Canonical(ParseMajor(s).v)
  {
    hide Span, Number, ParseStage, ParseMinor, Canonical;
    var n := Span(s, MAJOR_DIGITS);
    var w := Version(Number(s, n), 0, 0, INVALID, 0);
    if ParseMajor(s) == Bad {
    } else if First(s[n..]) == '.' {
      MinorCanonical(s[n + 1..], w);
    } else {
      StageCanonical(s[n..], w);
    }
  }

  predicate Before(v: Version, w: Version) {
    v.major < w.major || (v.major == w.major &&
    (v.minor < w.minor || (v.minor == w.minor &&
    (v.revision < w.revision || (v.revision == w.revision &&
    (v.stage < w.stage || (v.stage == w.stage && v.level < w.level)))))))
  }

  /** Encoded versions are in range and compare as their fields do. */
  lemma EncodeOrders(v: Version, w: Version)
    requires Canonical(v) && Canonical(w)
    ensures 1000 <= Encode(v) < 10_000_000_000_000_000
    ensures Encode(v) < Encode(w) <==> Before(v, w)
    ensures Encode(v) == Encode(w) <==> v == w
  {
  }

  /** Results are -1 or in range, and those of two accepted texts compare as their fields do. */
  lemma ParseOrders(s: string, t: string)
    ensures Parse(s) == -1 || 1000 <= Parse(s) < 10_000_000_000_000_000
    ensures ParseMajor(s).Good? && ParseMajor(t).Good? ==>
      (Parse(s) < Parse(t) <==> Before(ParseMajor(s).v, ParseMajor(t).v))
  {
    hide ParseMajor, Encode, Before;
    if ParseMajor(s).Good? {
      ParseCanonical(s);
      EncodeOrders(ParseMajor(s).v, ParseMajor(s).v);
      if ParseMajor(t).Good? {
        ParseCanonical(t);
        EncodeOrders(ParseMajor(s).v, ParseMajor(t).v);
      }
    }
  }

  // ---------- The printed form ----------

  /** `%u`. */
  function Decimal(n: nat): (s: string)
    ensures |s| >= 1 && forall i :: 0 <= i < |s| ==> IsDigit(s[i])
    ensures n <= 9 ==> |s| == 1
    ensures n <= 99 ==> |s| <= 2
    ensures n <= 999 ==> |s| <= 3
    ensures n <= 9999 ==> |s| <= 4
  {
    var d := [('0' as int + n % 10) as char];
    if n < 10 then d else Decimal(n / 10) + d
  }

  /** The fields of an encoded version, by the divisions of the source. */
  function Unpack(x: int): (v: Version)
    requires x >= 0
    ensures Encode(v) == x
    ensures 0 <= v.major && 0 <= v.minor <= MINOR_MAX && 0 <= v.revision <= REVISION_MAX
    ensures 0 <= v.stage <= 9 && 0 <= v.level <= 999
  {
    var major := x / MAJOR_MULT;
    var minor := (x - major * MAJOR_MULT) / MINOR_MULT;
    var revision := (x - (major * MAJOR_MULT + minor * MINOR_MULT)) / REVISION_MULT;
    var stage := (x - (major * MAJOR_MULT + minor * MINOR_MULT + revision * REVISION_MULT)) / STAGE_MULT;
    Version(major, minor, revision, stage,
            x - (major * MAJOR_MULT + minor * MINOR_MULT + revision * REVISION_MULT + stage * STAGE_MULT))
  }

  function StageName(stage: int): string {
    if stage == DEVELOPMENT then "d"
    else if stage == ALPHA then "a"
    else if stage == BETA then "b"
    else if stage == CANDIDATE then "f"
    else ""
  }

  function StageText(v: Version): string
    requires 0 <= v.level
  {
    StageName(v.stage) + if v.stage < RELEASE then Decimal(v.level) else ""
  }

  function RevisionText(v: Version): string
    requires 0 <= v.revision && 0 <= v.level
  {
    (if v.revision != 0 then "." + Decimal(v.revision) else "") + StageText(v)
  }

  function Text(v: Version): string
    requires 0 <= v.major && 0 <= v.minor && 0 <= v.revision && 0 <= v.level
  {
    Decimal(v.major) + ("." + (Decimal(v.minor) + RevisionText(v)))
  }

  /** The encoded versions that print as something other than a placeholder. */
  predicate Printable(x: int) {
    x > 0 && var v := Unpack(x); v.major <= MAJOR_MAX && v.level <= STAGE_LEVEL_MAX && HasName(v.stage)
  }

  function Print(x: int): string {
    if x == 0 then "(missing)" else if Printable(x) then Text(Unpack(x)) else "(invalid)"
  }

  // ---------- Printing, then parsing ----------

  lemma {:induction false} NumberPrefix(s: string, t: string, n: nat)
    requires n <= |s| && forall i :: 0 <= i < n ==> IsDigit(s[i])
    ensures forall i :: 0 <= i < n ==> IsDigit((s + t)[i])
    ensures Number(s + t, n) == Number(s, n)
  {
    if n == 0 {
    } else {
      NumberPrefix(s, t, n - 1);
    }
  }

  lemma {:induction false} NumberOfDecimal(n: nat)
    ensures Number(Decimal(n), |Decimal(n)|) == n
  {
    if n < 10 {
    } else {
      var s := Decimal(n / 10);
      var d := [('0' as int + n % 10) as char];
      NumberOfDecimal(n / 10);
      assert Decimal(n) == s + d;
      NumberPrefix(s, d, |s|);
    }
  }

  lemma {:induction false} SpanIs(s: string, k: nat, n: nat)
    requires n <= k && n <= |s| && forall i :: 0 <= i < n ==> IsDigit(s[i])
    requires n == k || !IsDigit(First(s[n..]))
    ensures Span(s, k) == n
  {
    if n == 0 {
    } else {
      assert s[1..][n - 1..] == s[n..];
      SpanIs(s[1..], k - 1, n - 1);
    }
  }

  /** A printed number followed by anything but a digit is scanned back. */
  lemma Rescan(n: nat, t: string, k: nat)
    requires |Decimal(n)| <= k && !IsDigit(First(t))
    ensures var s := Decimal(n) + t; Span(s, k) == |Decimal(n)| && Number(s, Span(s, k)) == n && s[Span(s, k)..] == t
  {
    var s := Decimal(n) + t;
    assert s[|Decimal(n)|..] == t;
    SpanIs(s, k, |Decimal(n)|);
    NumberOfDecimal(n);
    NumberPrefix(Decimal(n), t, |Decimal(n)|);
  }

  lemma ReparseLevel(level: nat, w: Version)
    requires level <= STAGE_LEVEL_MAX
    ensures ParseLevel(Decimal(level), w) ==
      if w.stage == CANDIDATE && level == 0 then Bad else Good(w.(level := level))
  {
    hide Span, Number, Decimal;
    assert Decimal(level) + "" == Decimal(level);
    Rescan(level, "", STAGE_LEVEL_DIGITS);
  }

  lemma ReparseStage(v: Version, w: Version)
    requires 0 <= v.level <= STAGE_LEVEL_MAX && HasName(v.stage) && w.level == 0
    ensures !IsDigit(First(StageText(v))) && First(StageText(v)) != '.'
    ensures ParseStage(StageText(v), w) ==
      if v.stage == RELEASE then Good(w.(stage := RELEASE))
      else if v.stage == CANDIDATE && v.level == 0 then Bad
      else Good(w.(stage := v.stage, level := v.level))
  {
    hide ParseLevel, Decimal;
    if v.stage != RELEASE {
      assert StageText(v)[1..] == Decimal(v.level);
      ReparseLevel(v.level, w.(stage := v.stage));
    } else {
      assert StageText(v) == "";
    }
  }

  /** From the end of the minor number on. */
  lemma ReparseRevision(v: Version, w: Version)
    requires InRange(v) && 0 <= v.level <= STAGE_LEVEL_MAX && HasName(v.stage)
    requires w.revision == 0 && w.level == 0
    ensures !IsDigit(First(RevisionText(v)))
    ensures v.revision == 0 ==> RevisionText(v) == StageText(v) && First(RevisionText(v)) != '.'
    ensures v.revision != 0 ==>
      && First(RevisionText(v)) == '.'
      && ParseRevision(RevisionText(v)[1..], w) == ParseStage(StageText(v), w.(revision := v.revision))
  {
    hide ParseStage, Decimal, StageText;
    ReparseStage(v, w.(revision := v.revision));
    if v.revision != 0 {
      assert RevisionText(v)[1..] == Decimal(v.revision) + StageText(v);
      Rescan(v.revision, StageText(v), REVISION_DIGITS);
    } else {
      assert RevisionText(v) == StageText(v);
    }
  }

  /** From the end of the major number on. */
  lemma ReparseMinor(v: Version, w: Version)
    requires InRange(v) && 0 <= v.level <= STAGE_LEVEL_MAX && HasName(v.stage)
    requires w.minor == 0 && w.revision == 0 && w.level == 0
    ensures ParseMinor(Decimal(v.minor) + RevisionText(v), w)
      == ParseStage(StageText(v), w.(minor := v.minor, revision := v.revision))
  {
    hide ParseStage, ParseRevision, Decimal, StageText, RevisionText;
    ReparseRevision(v, w.(minor := v.minor));
    Rescan(v.minor, RevisionText(v), MINOR_DIGITS);
    var t := RevisionText(v);
    assert First(t) == '.' ==> (Decimal(v.minor) + t)[|Decimal(v.minor)| + 1..] == t[1..];
  }

  lemma ReparseMajor(n: nat, u: string)
    requires n <= MAJOR_MAX && First(u) == '.'
    ensures ParseMajor(Decimal(n) + u) == ParseMinor(u[1..], Version(n, 0, 0, INVALID, 0))
  {
    hide ParseStage, ParseMinor, Decimal;
    Rescan(n, u, MAJOR_DIGITS);
    assert (Decimal(n) + u)[|Decimal(n)| + 1..] == u[1..];
  }

  lemma ReparseText(v: Version)
    requires InRange(v) && 0 <= v.level <= STAGE_LEVEL_MAX && HasName(v.stage)
    ensures ParseMajor(Text(v)) ==
      if v.stage == RELEASE then Good(v.(level := 0))
      else if v.stage == CANDIDATE && v.level == 0 then Bad
      else Good(v)
  {
    hide ParseStage, ParseMinor, ParseMajor, Decimal, StageText, RevisionText;
    var w := Version(v.major, 0, 0, INVALID, 0);
    var t := Decimal(v.minor) + RevisionText(v);
    assert ("." + t)[1..] == t;
    ReparseMajor(v.major, "." + t);
    ReparseMinor(v, w);
    ReparseStage(v, w.(minor := v.minor, revision := v.revision));
  }

  /** Parsing what was printed, for every encoded value. */
  lemma PrintThenParse(x: int)
    ensures Parse(Print(x)) ==
      if !Printable(x) then -1
      else if Unpack(x).stage == RELEASE then x - Unpack(x).level
      else if Unpack(x).stage == CANDIDATE && Unpack(x).level == 0 then -1
      else x
  {
    if Printable(x) {
      ReparseText(Unpack(x));
    }
  }

  lemma EncodeInjective(v: Version, w: Version)
    requires 0 <= v.minor <= MINOR_MAX && 0 <= v.revision <= REVISION_MAX && 0 <= v.stage <= 9 && 0 <= v.level <= 999
    requires 0 <= w.minor <= MINOR_MAX && 0 <= w.revision <= REVISION_MAX && 0 <= w.stage <= 9 && 0 <= w.level <= 999
    requires Encode(v) == Encode(w)
    ensures v == w
  {
  }

  lemma UnpackEncode(v: Version)
    requires Canonical(v)
    ensures Unpack(Encode(v)) == v && Printable(Encode(v))
  {
    hide Unpack;
    EncodeInjective(Unpack(Encode(v)), v);
  }

  /** Exactly the values a text can denote, and -1, survive printing and parsing. */
  lemma SurvivesIff(x: int)
    ensures Parse(Print(x)) == x <==> x == -1 || (x > 0 && Canonical(Unpack(x)))
  {
    hide Print, Unpack, Parse;
    PrintThenParse(x);
  }

  /** Every value the parser returns for some text survives printing and parsing. */
  lemma ParsedSurvives(s: string)
    requires Parse(s) >= 0
    ensures Parse(Print(Parse(s))) == Parse(s)
  {
    ParseCanonical(s);
    UnpackEncode(ParseMajor(s).v);
    PrintThenParse(Parse(s));
  }

  // ---------- Only the text before the first white space or NUL counts ----------

  function Head(s: string): (h: string)
    ensures h <= s
    ensures forall i :: 0 <= i < |h| ==> !IsEnd(h[i])
    ensures |h| < |s| ==> IsEnd(s[|h|])
  {
    if IsEnd(First(s)) then [] else [s[0]] + Head(s[1..])
  }

  lemma {:induction false} HeadDrop(s: string, n: nat)
    requires n <= |Head(s)|
    ensures Head(s[n..]) == Head(s)[n..]
  {
    if n == 0 {
    } else {
      HeadDrop(s[1..], n - 1);
      assert s[1..][n - 1..] == s[n..] && Head(s)[1..] == Head(s[1..]);
    }
  }

  /** What a scanner sees of `s` is what it sees of `Head(s)`. */
  lemma HeadFirst(s: string)
    ensures IsEnd(First(Head(s))) == IsEnd(First(s))
    ensures !IsEnd(First(s)) ==> First(Head(s)) == First(s)
    ensures !IsEnd(First(s)) ==> StageAt(Head(s)) == StageAt(s)
  {
    if !IsEnd(First(s)) {
      assert |Head(s)| >= 1;
      assert |s| >= 2 && !IsEnd(s[1]) ==> |Head(s)| >= 2;
      assert |s| >= 3 && !IsEnd(s[1]) && !IsEnd(s[2]) ==> |Head(s)| >= 3;
    }
  }

  lemma HeadSpan(s: string, k: nat)
    ensures Span(s, k) <= |Head(s)| && Span(Head(s), k) == Span(s, k)
    ensures Number(Head(s), Span(s, k)) == Number(s, Span(s, k))
  {
    hide Head, Span, Number;
    var n, h := Span(s, k), Head(s);
    assert n <= |h|;
    SpanIs(h, k, n);
    NumberPrefix(h, s[|h|..], n);
    assert h + s[|h|..] == s;
  }

  lemma HeadNumber(s: string, k: nat)
    ensures Span(Head(s), k) == Span(s, k) <= |Head(s)|
    ensures Number(Head(s), Span(s, k)) == Number(s, Span(s, k))
    ensures Head(s[Span(s, k)..]) == Head(s)[Span(s, k)..]
    ensures var c := First(s[Span(s, k)..]); !IsEnd(c) ==>
      First(Head(s)[Span(s, k)..]) == c && Head(s[Span(s, k) + 1..]) == Head(s)[Span(s, k) + 1..]
    ensures IsEnd(First(Head(s)[Span(s, k)..])) == IsEnd(First(s[Span(s, k)..]))
  {
    hide Span, Number;
    HeadSpan(s, k);
    HeadDrop(s, Span(s, k));
    HeadFirst(s[Span(s, k)..]);
    if !IsEnd(First(s[Span(s, k)..])) {
      HeadDrop(s, Span(s, k) + 1);
    }
  }

  lemma HeadStage(s: string, v: Version)
    ensures ParseStage(Head(s), v) == ParseStage(s, v)
  {
    HeadFirst(s);
    if !IsEnd(First(s)) && StageAt(s).0 != INVALID {
      var n := StageAt(s).1;
      HeadDrop(s, n);
      HeadNumber(s[n..], STAGE_LEVEL_DIGITS);
    }
  }

  lemma HeadRevision(s: string, v: Version)
    ensures ParseRevision(Head(s), v) == ParseRevision(s, v)
  {
    hide ParseStage;
    HeadNumber(s, REVISION_DIGITS);
    var n := Span(s, REVISION_DIGITS);
    var w := v.(revision := Number(s, n));
    HeadStage(s[n..], w);
    if First(s[n..]) == '.' {
      HeadStage(s[n + 1..], w);
    }
  }

  lemma HeadMinor(s: string, v: Version)
    ensures ParseMinor(Head(s), v) == ParseMinor(s, v)
  {
    hide ParseStage, ParseRevision;
    HeadNumber(s, MINOR_DIGITS);
    var n := Span(s, MINOR_DIGITS);
    var w := v.(minor := Number(s, n));
    HeadStage(s[n..], w);
    if First(s[n..]) == '.' {
      HeadRevision(s[n + 1..], w);
    }
  }

  lemma ParseHead(s: string)
    ensures Parse(Head(s)) == Parse(s)
  {
    hide ParseStage, ParseMinor;
    HeadNumber(s, MAJOR_DIGITS);
    var n := Span(s, MAJOR_DIGITS);
    var w := Version(Number(s, n), 0, 0, INVALID, 0);
    HeadStage(s[n..], w);
    if First(s[n..]) == '.' {
      HeadMinor(s[n + 1..], w);
    }
  }

  // ---------- The parser ----------

  datatype CString = Null | Str(s: string)

  /** The character a pointer into a NUL-terminated string sees. */
  function At(s: string, p: int): char
    requires 0 <= p <= |s|
  {
    if p < |s| then s[p] else '\0'
  }

  predicate IsReleaseState(c: char) { c == 'd' || c == 'a' || c == 'b' || c == 'f' }

  /** A scan of `n` digits from `from` on has come to `p` and to the number `x`. */
  ghost predicate Scanned(s: string, from: int, p: int, n: int, x: int) {
    && 0 <= n && 0 <= from && p == from + n <= |s|
    && (forall i :: 0 <= i < n ==> IsDigit(s[from..][i]))
    && x == Number(s[from..], n)
  }

  lemma ScanStart(s: string, from: int)
    requires 0 <= from <= |s|
    ensures Scanned(s, from, from, 0, 0)
  {
  }

  lemma ScanDigit(s: string, from: int, p: int, n: int, x: int)
    requires 0 <= p <= |s| && Scanned(s, from, p, n, x) && IsDigit(At(s, p))
    ensures p < |s| && Scanned(s, from, p + 1, n + 1, x * 10 + Digit(At(s, p)))
  {
    assert s[from..][n] == s[p];
  }

  /** Where the digits end, or their limit is reached, the scan has found what the grammar asks for. */
  lemma ScanEnds(s: string, from: int, p: int, n: int, x: int, k: int)
    requires Scanned(s, from, p, n, x) && n <= k && (n == k || !IsDigit(At(s, p)))
    ensures Span(s[from..], k) == n && Number(s[from..], n) == x
    ensures s[from..][n..] == s[p..] && First(s[from..][n..]) == At(s, p)
    ensures p < |s| ==> s[from..][n + 1..] == s[p + 1..]
  {
    assert s[from..][n..] == s[p..];
    SpanIs(s[from..], k, n);
  }

  /** What a scan that stops at `p` makes of the character there. */
  lemma StageStart(s: string, p: int, v: Version)
    requires 0 <= p <= |s|
    ensures IsEnd(At(s, p)) ==> ParseStage(s[p..], v) == Good(v.(stage := RELEASE))
    ensures !IsEnd(At(s, p)) && !IsReleaseState(At(s, p)) ==> ParseStage(s[p..], v) == Bad
  {
  }

  /** Four digits may run straight into what follows the next field. */
  lemma NoRevision(s: string, p: int, v: Version)
    requires 0 <= p <= |s| && v.revision == 0 && !IsDigit(At(s, p))
    ensures ParseRevision(s[p..], v) == ParseStage(s[p..], v)
  {
    hide ParseStage;
    assert s[p..][0..] == s[p..];
    SpanIs(s[p..], REVISION_DIGITS, 0);
  }

  lemma NoMinor(s: string, p: int, v: Version)
    requires 0 <= p <= |s| && v.minor == 0 && !IsDigit(At(s, p)) && At(s, p) != '.'
    ensures ParseMinor(s[p..], v) == ParseStage(s[p..], v)
  {
    hide ParseStage, ParseRevision;
    assert s[p..][0..] == s[p..];
    SpanIs(s[p..], MINOR_DIGITS, 0);
  }

  /** The stage at `p`, with the pointer moved past its name. */
  method StageForString(s: string, p: int) returns (stage: int, p': int)
    requires 0 <= p <= |s| && !IsEnd(At(s, p))
    ensures stage == StageAt(s[p..]).0 && p' == p + StageAt(s[p..]).1
    ensures stage != INVALID ==> p' <= |s|
  {
    stage, p' := INVALID, p;
    if At(s, p) == 'd' || At(s, p) == 'a' || At(s, p) == 'b' {
      if IsDigit(At(s, p + 1)) {
        stage := if At(s, p) == 'd' then DEVELOPMENT else if At(s, p) == 'a' then ALPHA else BETA;
        p' := p + 1;
      }
    } else if At(s, p) == 'f' {
      if IsDigit(At(s, p + 1)) {
        stage, p' := CANDIDATE, p + 1;
      } else if At(s, p + 1) == 'c' && IsDigit(At(s, p + 2)) {
        stage, p' := CANDIDATE, p + 2;
      }
    }
  }

  // What is left to parse where a scan of each field stops.

  lemma LevelStops(s: string, from: int, p: int, n: int, x: int, v: Version)
    requires Scanned(s, from, p, n, x) && n <= STAGE_LEVEL_DIGITS && (n == STAGE_LEVEL_DIGITS || !IsDigit(At(s, p)))
    ensures ParseLevel(s[from..], v) ==
      if n == 0 || !IsEnd(At(s, p)) || x > STAGE_LEVEL_MAX then Bad else Finish(v.(level := x))
    ensures n < STAGE_LEVEL_DIGITS ==> x <= STAGE_LEVEL_MAX
  {
    hide Span;
    ScanEnds(s, from, p, n, x, STAGE_LEVEL_DIGITS);
  }

  lemma RevisionStops(s: string, from: int, p: int, n: int, x: int, v: Version)
    requires Scanned(s, from, p, n, x) && n <= REVISION_DIGITS && (n == REVISION_DIGITS || !IsDigit(At(s, p)))
    ensures ParseRevision(s[from..], v) ==
      ParseStage(s[if n == REVISION_DIGITS && At(s, p) == '.' then p + 1 else p..], v.(revision := x))
  {
    hide Span, Number, ParseStage;
    ScanEnds(s, from, p, n, x, REVISION_DIGITS);
  }

  lemma MinorStops(s: string, from: int, p: int, n: int, x: int, v: Version)
    requires Scanned(s, from, p, n, x) && n <= MINOR_DIGITS && (n == MINOR_DIGITS || !IsDigit(At(s, p)))
    ensures ParseMinor(s[from..], v) ==
      if At(s, p) == '.' then ParseRevision(s[p + 1..], v.(minor := x)) else ParseStage(s[p..], v.(minor := x))
  {
    hide Span, Number, ParseStage, ParseRevision;
    ScanEnds(s, from, p, n, x, MINOR_DIGITS);
  }

  lemma MajorStops(s: string, p: int, n: int, x: int)
    requires Scanned(s, 0, p, n, x) && 1 <= n <= MAJOR_DIGITS && (n == MAJOR_DIGITS || !IsDigit(At(s, p)))
    ensures var v := Version(x, 0, 0, INVALID, 0);
      ParseMajor(s) == if At(s, p) == '.' then ParseMinor(s[p + 1..], v) else ParseStage(s[p..], v)
  {
    hide Span, Number, ParseStage, ParseMinor;
    ScanEnds(s, 0, p, n, x, MAJOR_DIGITS);
    assert s[0..] == s;
  }

  /** The label `finish`. */
  function Finish(v: Version): Parsed {
    if v.stage == CANDIDATE && v.level == 0 then Bad else Good(v)
  }

  /** The stage level. */
  method ParseStageLevel(s: string, from: int, v: Version) returns (r: Parsed)
    requires 0 <= from <= |s| && v.level == 0
    ensures r == ParseLevel(s[from..], v)
  {
    hide ParseLevel, Number, Scanned;
    var p, n, level := from, 0, 0;
    ScanStart(s, from);
    while n < STAGE_LEVEL_DIGITS
      invariant 0 <= n <= STAGE_LEVEL_DIGITS && Scanned(s, from, p, n, level) && from <= p <= |s|
      decreases STAGE_LEVEL_DIGITS - n
    {
      if IsEnd(At(s, p)) {
        LevelStops(s, from, p, n, level, v);
        if n != 0 {
          return Finish(v.(level := level));
        } else {
          return Bad;
        }
      } else if IsDigit(At(s, p)) {
        ScanDigit(s, from, p, n, level);
        level := level * 10 + Digit(At(s, p));
        p, n := p + 1, n + 1;
      } else {
        LevelStops(s, from, p, n, level, v);
        return Bad;
      }
    }
    LevelStops(s, from, p, n, level, v);
    if n == STAGE_LEVEL_DIGITS && !IsEnd(At(s, p)) {
      return Bad;
    }
    if level > STAGE_LEVEL_MAX {
      return Bad;
    }
    return Finish(v.(level := level));
  }

  /** The label `release_state`. */
  method ParseReleaseState(s: string, p: int, v: Version) returns (r: Parsed)
    requires 0 <= p <= |s| && v.level == 0
    ensures r == ParseStage(s[p..], v)
  {
    hide ParseLevel;
    if IsEnd(At(s, p)) {
      return Finish(v.(stage := RELEASE));
    }
    var stage, q := StageForString(s, p);
    if stage == INVALID {
      return Bad;
    }
    assert s[p..][StageAt(s[p..]).1..] == s[q..];
    r := ParseStageLevel(s, q, v.(stage := stage));
  }

  /** The label `revision`. */
  method ParseFromRevision(s: string, from: int, v: Version) returns (r: Parsed)
    requires 0 <= from <= |s| && v.revision == 0 && v.level == 0
    ensures r == ParseRevision(s[from..], v)
  {
    hide ParseStage, ParseRevision, Number, Scanned;
    var p, n, revision := from, 0, 0;
    ScanStart(s, from);
    while n < REVISION_DIGITS
      invariant n <= REVISION_DIGITS && Scanned(s, from, p, n, revision) && from <= p <= |s|
      decreases REVISION_DIGITS - n
    {
      if IsDigit(At(s, p)) {
        ScanDigit(s, from, p, n, revision);
      } else {
        RevisionStops(s, from, p, n, revision, v);
        StageStart(s, p, v.(revision := revision));
      }
      if IsEnd(At(s, p)) {
        return Finish(v.(revision := revision, stage := RELEASE));
      } else if IsDigit(At(s, p)) {
        revision := revision * 10 + Digit(At(s, p));
        p, n := p + 1, n + 1;
      } else if IsReleaseState(At(s, p)) {
        r := ParseReleaseState(s, p, v.(revision := revision));
        return;
      } else {
        return Bad;
      }
    }
    RevisionStops(s, from, p, n, revision, v);
    if n == REVISION_DIGITS {
      if At(s, p) == '.' {
        p := p + 1;
      } else if IsDigit(At(s, p)) {
        StageStart(s, p, v.(revision := revision));
        return Bad;
      }
    }
    r := ParseReleaseState(s, p, v.(revision := revision));
  }

  /** The label `minor_version`. */
  method ParseFromMinor(s: string, from: int, v: Version) returns (r: Parsed)
    requires 0 <= from <= |s| && v.minor == 0 && v.revision == 0 && v.level == 0
    ensures r == ParseMinor(s[from..], v)
  {
    hide ParseStage, ParseRevision, ParseMinor, Number, Scanned;
    var p, n, minor := from, 0, 0;
    ScanStart(s, from);
    while n < MINOR_DIGITS
      invariant n <= MINOR_DIGITS && Scanned(s, from, p, n, minor) && from <= p <= |s|
      decreases MINOR_DIGITS - n
    {
      if IsDigit(At(s, p)) {
        ScanDigit(s, from, p, n, minor);
      } else {
        MinorStops(s, from, p, n, minor, v);
        StageStart(s, p, v.(minor := minor));
      }
      if IsEnd(At(s, p)) {
        return Finish(v.(minor := minor, stage := RELEASE));
      } else if IsDigit(At(s, p)) {
        minor := minor * 10 + Digit(At(s, p));
        p, n := p + 1, n + 1;
      } else if IsReleaseState(At(s, p)) {
        r := ParseReleaseState(s, p, v.(minor := minor));
        return;
      } else if At(s, p) == '.' {
        r := ParseFromRevision(s, p + 1, v.(minor := minor));
        return;
      } else {
        return Bad;
      }
    }
    MinorStops(s, from, p, n, minor, v);
    if n == MINOR_DIGITS {
      if At(s, p) == '.' {
        p := p + 1;
      } else if IsDigit(At(s, p)) {
        StageStart(s, p, v.(minor := minor));
        return Bad;
      } else {
        NoRevision(s, p, v.(minor := minor));
      }
    }
    r := ParseFromRevision(s, p, v.(minor := minor));
  }

  /** The major number, whose first digit has been read. */
  method ParseFromMajor(s: string, first: int) returns (r: Parsed)
    requires |s| >= 1 && IsDigit(s[0]) && first == Digit(s[0])
    ensures r == ParseMajor(s)
  {
    hide ParseStage, ParseMinor, ParseMajor, Number, Scanned;
    ScanStart(s, 0);
    ScanDigit(s, 0, 0, 0, 0);
    var p, n, major := 1, 1, first;
    while n < MAJOR_DIGITS
      invariant 1 <= n <= MAJOR_DIGITS && Scanned(s, 0, p, n, major) && 0 <= p <= |s|
      decreases MAJOR_DIGITS - n
    {
      if IsDigit(At(s, p)) {
        ScanDigit(s, 0, p, n, major);
      } else {
        MajorStops(s, p, n, major);
        StageStart(s, p, Version(major, 0, 0, INVALID, 0));
      }
      if IsEnd(At(s, p)) {
        return Finish(Version(major, 0, 0, RELEASE, 0));
      } else if IsDigit(At(s, p)) {
        major := major * 10 + Digit(At(s, p));
        p, n := p + 1, n + 1;
      } else if IsReleaseState(At(s, p)) {
        r := ParseReleaseState(s, p, Version(major, 0, 0, INVALID, 0));
        return;
      } else if At(s, p) == '.' {
        r := ParseFromMinor(s, p + 1, Version(major, 0, 0, INVALID, 0));
        return;
      } else {
        return Bad;
      }
    }
    MajorStops(s, p, n, major);
    if n == MAJOR_DIGITS {
      if At(s, p) == '.' {
        p := p + 1;
      } else if IsDigit(At(s, p)) {
        StageStart(s, p, Version(major, 0, 0, INVALID, 0));
        return Bad;
      } else {
        NoMinor(s, p, Version(major, 0, 0, INVALID, 0));
      }
    }
    r := ParseFromMinor(s, p, Version(major, 0, 0, INVALID, 0));
  }

  method ParseVersionString(text: CString) returns (result: int)
    ensures result == if text == Null then -1 else Parse(text.s)
  {
    hide ParseStage, ParseMinor;
    if text == Null || At(text.s, 0) == '\0' {
      return -1;
    }
    var s := text.s;
    if !IsDigit(s[0]) {
      return -1;
    }
    var r := ParseFromMajor(s, Digit(s[0]));
    return if r == Bad then -1 else Encode(r.v);
  }

  // ---------- The printer ----------

  /** The C string a buffer holds: everything before its first NUL. */
  function Contents(b: seq<char>): (t: string)
    ensures t <= b && forall i :: 0 <= i < |t| ==> t[i] != '\0'
    ensures |t| < |b| ==> b[|t|] == '\0'
  {
    if b == [] || b[0] == '\0' then [] else [b[0]] + Contents(b[1..])
  }

  lemma ContentsAre(b: seq<char>, t: string)
    requires t <= b && |t| < |b| && b[|t|] == '\0' && forall i :: 0 <= i < |t| ==> t[i] != '\0'
    ensures Contents(b) == t
  {
    assert |Contents(b)| == |t|;
  }

  /** From `from` on, `b` holds `t` and then NULs. */
  ghost predicate Padded(b: seq<char>, from: int, t: string) {
    forall i :: 0 <= from <= i < |b| ==> b[i] == if i < |t| then t[i] else '\0'
  }

  lemma PaddedContents(b: seq<char>, t: string)
    requires Padded(b, 0, t) && |t| < |b| && forall i :: 0 <= i < |t| ==> t[i] != '\0'
    ensures Contents(b) == t
  {
    assert t == b[..|t|];
    ContentsAre(b, t);
  }

  /** Write `text` and a NUL at `at`, as `scnprintf`, `strlcpy` and `strlcat` do when it fits. */
  method Put(buffer: array<char>, at: int, text: string) returns (end: int)
    requires 0 <= at && at + |text| < buffer.Length
    modifies buffer
    ensures end == at + |text| && buffer[end] == '\0'
    ensures forall j :: at <= j < end ==> buffer[j] == text[j - at]
    ensures forall j :: 0 <= j < at || end < j < buffer.Length ==> buffer[j] == old(buffer[j])
  {
    for i := 0 to |text|
      invariant forall j :: at <= j < at + i ==> buffer[j] == text[j - at]
      invariant forall j :: 0 <= j < at || at + i <= j < buffer.Length ==> buffer[j] == old(buffer[j])
    {
      buffer[at + i] := text[i];
    }
    end := at + |text|;
    buffer[end] := '\0';
  }

  /** Write `text` after `t` in a buffer that is otherwise clear. */
  method Add(buffer: array<char>, ghost t: string, at: int, text: string) returns (end: int)
    requires Padded(buffer[..], 0, t) && at == |t| && at + |text| < buffer.Length
    modifies buffer
    ensures Padded(buffer[..], 0, t + text) && end == |t + text|
  {
    end := Put(buffer, at, text);
  }

  method Clear(buffer: array<char>)
    modifies buffer
    ensures Padded(buffer[..], 0, "")
  {
    forall i | 0 <= i < buffer.Length {
      buffer[i] := '\0';
    }
  }

  /** The numbers of a version, without stage and level. */
  function Numbers(v: Version): string
    requires 0 <= v.major && 0 <= v.minor && 0 <= v.revision
  {
    Decimal(v.major) + "." + Decimal(v.minor) + if v.revision != 0 then "." + Decimal(v.revision) else ""
  }

  lemma TextIs(v: Version)
    requires 0 <= v.major && 0 <= v.minor && 0 <= v.revision && 0 <= v.level
    ensures Text(v) == Numbers(v) + StageText(v)
  {
    hide Decimal, StageText;
  }

  /** A printed version has no NUL and leaves room for one. */
  lemma TextFits(v: Version)
    requires InRange(v) && 0 <= v.level <= STAGE_LEVEL_MAX
    ensures |Text(v)| < MAX_LENGTH && forall i :: 0 <= i < |Text(v)| ==> Text(v)[i] != '\0'
    ensures |Numbers(v)| <= |Text(v)|
  {
    TextIs(v);
  }

  method WriteNumbers(v: Version, buffer: array<char>) returns (cpos: int)
    requires InRange(v) && buffer.Length >= MAX_LENGTH && Padded(buffer[..], 0, "")
    modifies buffer
    ensures cpos == |Numbers(v)| && Padded(buffer[..], 0, Numbers(v))
  {
    hide Padded;
    ghost var t := Decimal(v.major);
    assert "" + t == t;
    cpos := Add(buffer, "", 0, Decimal(v.major));
    cpos := Add(buffer, t, cpos, ".");
    t := t + ".";
    cpos := Add(buffer, t, cpos, Decimal(v.minor));
    t := t + Decimal(v.minor);
    if v.revision != 0 {
      cpos := Add(buffer, t, cpos, ".");
      assert (t + ".") + Decimal(v.revision) == t + ("." + Decimal(v.revision));
      cpos := Add(buffer, t + ".", cpos, Decimal(v.revision));
    } else {
      assert t + "" == t;
    }
  }

  method WriteStage(v: Version, buffer: array<char>, cpos: int)
    requires InRange(v) && 0 <= v.level <= STAGE_LEVEL_MAX && buffer.Length >= MAX_LENGTH
    requires cpos == |Numbers(v)| && Padded(buffer[..], 0, Numbers(v))
    modifies buffer
    ensures Padded(buffer[..], 0, Text(v))
  {
    hide Padded, Decimal, Numbers, Text;
    TextIs(v);
    TextFits(v);
    ghost var t, stage := Numbers(v), StageName(v.stage);
    var end := cpos;
    assert t + "" == t;
    if StageName(v.stage) != "" {
      end := Add(buffer, t, end, StageName(v.stage));
    }
    if v.stage < RELEASE {
      assert (t + stage) + Decimal(v.level) == t + StageText(v);
      end := Add(buffer, t + stage, end, Decimal(v.level));
    } else {
      assert stage == StageText(v);
    }
  }

  /** Write a placeholder over whatever the buffer holds. */
  method WritePlaceholder(buffer: array<char>, text: string)
    requires |text| < buffer.Length && forall i :: 0 <= i < |text| ==> text[i] != '\0'
    modifies buffer
    ensures Contents(buffer[..]) == text
    ensures old(Padded(buffer[..], 0, "")) ==> Padded(buffer[..], 0, text)
    ensures forall t :: old(Padded(buffer[..], 0, t)) ==> Padded(buffer[..], |text| + 1, t)
  {
    var end := Put(buffer, 0, text);
    assert buffer[..][end] == '\0' && buffer[..][..end] == text;
    ContentsAre(buffer[..], text);
  }

  /** The printer has written the numbers by the time it finds that the stage has no name. */
  predicate FoundLate(x: int) {
    x > 0 && var v := Unpack(x); v.major <= MAJOR_MAX && v.level <= STAGE_LEVEL_MAX && !HasName(v.stage)
  }

  /** `OSKextVersionGetString`: false, with the buffer untouched, if there is no buffer or it is too
      small for the longest version.  Behind the text the buffer is clear, unless the placeholder was
      written over numbers. */
  method GetString(x: int, buffer: array?<char>) returns (ok: bool)
    modifies buffer
    ensures ok <==> buffer != null && buffer.Length >= 20
    ensures !ok && buffer != null ==> buffer[..] == old(buffer[..])
    ensures ok ==> Contents(buffer[..]) == Print(x)
    ensures ok && !FoundLate(x) ==> Padded(buffer[..], 0, Print(x))
    ensures ok && FoundLate(x) ==> Padded(buffer[..], |Print(x)| + 1, Numbers(Unpack(x)))
  {
    hide Contents, Text, Numbers, Padded, Unpack;
    if buffer == null || buffer.Length < MAX_LENGTH {
      return false;
    }
    ok := true;
    Clear(buffer);
    if x < 0 {
      WritePlaceholder(buffer, "(invalid)");
      return;
    }
    if x == 0 {
      WritePlaceholder(buffer, "(missing)");
      return;
    }
    var v := Unpack(x);
    if v.major > MAJOR_MAX {
      WritePlaceholder(buffer, "(invalid)");
      return;
    }
    if v.level > STAGE_LEVEL_MAX {
      WritePlaceholder(buffer, "(invalid)");
      return;
    }
    var cpos := WriteNumbers(v, buffer);
    if !HasName(v.stage) {
      WritePlaceholder(buffer, "(invalid)");
      return;
    }
    WriteStage(v, buffer, cpos);
    TextFits(v);
    PaddedContents(buffer[..], Text(v));
  }
}
