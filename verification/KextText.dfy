/** Versions as they are written: what every way of writing one denotes, which texts are versions at all,
  and what is printed.
 */
module KextText {
  import opened KextVersion

  // ---------- Versions in characters ----------

  /** What may follow a version: nothing, white space or a NUL, and then anything. */
  predicate Ends(t: string) {
    t == "" || t[0] == ' ' || t[0] == '\t' || t[0] == '\r' || t[0] == '\n' || t[0] == '\0'
  }

  /** One to three numbers of at most four digits, with periods between them, and what follows. */
  predicate Numbered(ns: seq<nat>) {
    1 <= |ns| <= 3 && forall i :: 0 <= i < |ns| ==> ns[i] <= 9999
  }

  function Dotted(ns: seq<nat>, rest: string): string
    requires Numbered(ns)
  {
    if |ns| == 1 then Decimal(ns[0]) + rest
    else if |ns| == 2 then Decimal(ns[0]) + ("." + (Decimal(ns[1]) + rest))
    else Decimal(ns[0]) + ("." + (Decimal(ns[1]) + ("." + (Decimal(ns[2]) + rest))))
  }

  /** The spellings of the stages before the release, and their numbers. */
  const SPELLINGS: seq<(string, int)> := [("d", 1), ("a", 3), ("b", 5), ("f", 7), ("fc", 7)]

  /** The value of the numbers given; those left out are 0. */
  function Value(ns: seq<nat>, stage: int, level: int): int
    requires Numbered(ns)
  {
    ns[0] * 1_000_000_000_000
    + (if |ns| > 1 then ns[1] * 100_000_000 else 0)
    + (if |ns| > 2 then ns[2] * 10_000 else 0)
    + stage * 1_000 + level
  }

  lemma SpelledName(k: int, tail: string)
    requires 0 <= k < 5 && tail != "" && IsDigit(tail[0])
    ensures var (name, stage) := SPELLINGS[k]; var rest := name + tail;
      && StageAt(rest) == (stage, |name|) && rest[|name|..] == tail && stage != INVALID
      && !IsDigit(First(rest)) && First(rest) != '.' && !IsEnd(First(rest))
  {
    var name := SPELLINGS[k].0;
    assert name == "d" || name == "a" || name == "b" || name == "f" || name == "fc";
    assert (name + tail)[|name|] == tail[0];
  }

  /** The version that such numbers, a stage and a level make. */
  function Made(ns: seq<nat>, stage: int, level: nat): Version
    requires Numbered(ns)
  {
    Version(ns[0], if |ns| > 1 then ns[1] else 0, if |ns| > 2 then ns[2] else 0, stage, level)
  }

  lemma PrintsText(v: Version)
    requires InRange(v) && HasName(v.stage) && 0 <= v.level <= 255
    ensures Print(Encode(v)) == Text(v)
  {
    hide Unpack, Text;
    EncodeInjective(Unpack(Encode(v)), v);
  }

  lemma TextForm(ns: seq<nat>, stage: int, level: nat)
    requires Numbered(ns) && |ns| >= 2 && (|ns| == 3 ==> ns[2] != 0)
    ensures Text(Made(ns, stage, level)) == Dotted(ns, StageText(Made(ns, stage, level)))
  {
    hide Decimal, StageText;
    var a, b, d := Decimal(ns[0]), Decimal(ns[1]), StageText(Made(ns, stage, level));
    if |ns| == 2 {
      assert "" + d == d;
    } else {
      var c := Decimal(ns[2]);
      assert ("." + c) + d == "." + (c + d);
    }
  }

  /** What is printed: the minor number always, the revision unless it is 0, the shorter spelling of the
      stage and the level. */
  lemma PrintedForm(ns: seq<nat>, k: int, level: nat)
    requires Numbered(ns) && |ns| >= 2 && (|ns| == 3 ==> ns[2] != 0) && 0 <= k < 4 && level <= 255
    ensures Print(Value(ns, SPELLINGS[k].1, level)) == Dotted(ns, SPELLINGS[k].0 + Decimal(level))
  {
    hide Decimal, Print, Text, Dotted;
    var v := Made(ns, SPELLINGS[k].1, level);
    PrintsText(v);
    TextForm(ns, SPELLINGS[k].1, level);
    assert StageText(v) == SPELLINGS[k].0 + Decimal(level);
  }

  /** A release has neither. */
  lemma PrintedRelease(ns: seq<nat>, level: nat)
    requires Numbered(ns) && |ns| >= 2 && (|ns| == 3 ==> ns[2] != 0) && level <= 255
    ensures Print(Value(ns, 9, level)) == Dotted(ns, "")
  {
    hide Decimal, Print, Text, Dotted;
    var v := Made(ns, 9, level);
    PrintsText(v);
    TextForm(ns, 9, level);
    assert StageText(v) == "";
  }

  /** Values that are no versions have words of their own. */
  lemma PrintedWords(x: int)
    ensures Print(x) == "(missing)" <==> x == 0
    ensures x < 0 || x >= 10_000_000_000_000_000 ==> Print(x) == "(invalid)"
  {
    if x != 0 && Printable(x) {
      assert IsDigit(Decimal(Unpack(x).major)[0]);
      assert IsDigit(Print(x)[0]);
    }
  }

  // ---------- Exactly which texts are versions ----------

  /** How a version may be written: up to four digits each for major, minor and revision number, where all
      but the first of the major number may be missing; a second period after a revision of four digits;
      a stage with one to three digits of level, or none; and what follows. */
  datatype Third = NoThird | Third(digits: string, period: bool)
  datatype Second = NoSecond | Second(digits: string, third: Third)
  datatype Written = Written(major: string, second: Second, name: string, level: string, rest: string)

  predicate AllDigits(d: string) { forall i :: 0 <= i < |d| ==> IsDigit(d[i]) }

  predicate StageOk(name: string, level: string, rest: string) {
    && AllDigits(level) && Ends(rest)
    && if name == "" then level == ""
       else
         && name in {"d", "a", "b", "f", "fc"} && 1 <= |level| <= 3 && Number(level, |level|) <= 255
         && (name[0] == 'f' ==> Number(level, |level|) > 0)
  }

  predicate ThirdOk(third: Third) {
    third.Third? ==> AllDigits(third.digits) && |third.digits| <= 4 && (third.period ==> |third.digits| == 4)
  }

  predicate SecondOk(second: Second) {
    second.Second? ==> AllDigits(second.digits) && |second.digits| <= 4 && ThirdOk(second.third)
  }

  predicate WrittenOk(x: Written) {
    && AllDigits(x.major) && 1 <= |x.major| <= 4 && SecondOk(x.second) && StageOk(x.name, x.level, x.rest)
  }

  function ThirdText(third: Third, st: string): string {
    match third
    case NoThird => st
    case Third(d, period) => "." + (d + if period then "." + st else st)
  }

  function SecondText(second: Second, st: string): string {
    match second
    case NoSecond => st
    case Second(d, third) => "." + (d + ThirdText(third, st))
  }

  function WrittenText(x: Written): string {
    x.major + SecondText(x.second, x.name + (x.level + x.rest))
  }

  /** What it denotes: missing numbers are 0, and no stage is a release. */
  function StageNumber(name: string): int {
    if name == "" then 9 else if name == "d" then 1 else if name == "a" then 3 else if name == "b" then 5 else 7
  }

  function Denoted(x: Written): Version
    requires WrittenOk(x)
  {
    Version(Number(x.major, |x.major|),
            if x.second.Second? then Number(x.second.digits, |x.second.digits|) else 0,
            if x.second.Second? && x.second.third.Third?
              then Number(x.second.third.digits, |x.second.third.digits|) else 0,
            StageNumber(x.name), Number(x.level, |x.level|))
  }

  lemma ScanWritten(d: string, t: string, k: nat)
    requires AllDigits(d) && |d| <= k && !IsDigit(First(t))
    ensures Span(d + t, k) == |d| && Number(d + t, |d|) == Number(d, |d|) && (d + t)[|d|..] == t
  {
    hide Number;
    assert (d + t)[|d|..] == t;
    SpanIs(d + t, k, |d|);
    NumberPrefix(d, t, |d|);
  }

  /** After a number comes neither a digit nor a period. */
  predicate NoNumber(st: string) { !IsDigit(First(st)) && First(st) != '.' }

  lemma NumberZero(s: string)
    ensures Number(s, 0) == 0
  {
  }

  lemma StageComplete(name: string, level: string, rest: string, w: Version)
    requires StageOk(name, level, rest) && w.level == 0
    ensures NoNumber(name + (level + rest))
    ensures ParseStage(name + (level + rest), w) ==
      Good(w.(stage := StageNumber(name), level := Number(level, |level|)))
  {
    hide Number, Span;
    NumberZero(level);
    if name == "" {
      assert name + (level + rest) == rest;
    } else {
      var k := if name == "d" then 0 else if name == "a" then 1 else if name == "b" then 2
        else if name == "f" then 3 else 4;
      SpelledName(k, level + rest);
      ScanWritten(level, rest, STAGE_LEVEL_DIGITS);
    }
  }

  lemma ThirdComplete(third: Third, st: string, w: Version)
    requires ThirdOk(third) && third.Third? && NoNumber(st)
    ensures ParseRevision(ThirdText(third, st)[1..], w)
      == ParseStage(st, w.(revision := Number(third.digits, |third.digits|)))
  {
    hide Number, Span, ParseStage;
    var d := third.digits;
    if third.period {
      ScanWritten(d, "." + st, REVISION_DIGITS);
      assert (d + ("." + st))[|d| + 1..] == st;
      assert ThirdText(third, st)[1..] == d + ("." + st);
    } else {
      ScanWritten(d, st, REVISION_DIGITS);
      assert ThirdText(third, st)[1..] == d + st;
    }
  }

  lemma SecondComplete(second: Second, st: string, w: Version)
    requires SecondOk(second) && second.Second? && NoNumber(st) && w.revision == 0
    ensures var third := second.third;
      ParseMinor(SecondText(second, st)[1..], w) == ParseStage(st, w.(
        minor := Number(second.digits, |second.digits|),
        revision := if third.Third? then Number(third.digits, |third.digits|) else 0))
  {
    hide Number, Span, ParseStage, ParseRevision;
    var d, t := second.digits, ThirdText(second.third, st);
    assert SecondText(second, st)[1..] == d + t;
    ScanWritten(d, t, MINOR_DIGITS);
    if second.third.Third? {
      assert (d + t)[|d| + 1..] == t[1..];
      ThirdComplete(second.third, st, w.(minor := Number(d, |d|)));
    }
  }

  /** Every text written so is accepted, with the version it denotes. */
  lemma WrittenParses(x: Written)
    requires WrittenOk(x)
    ensures ParseMajor(WrittenText(x)) == Good(Denoted(x)) && Parse(WrittenText(x)) == Encode(Denoted(x))
  {
    hide Number, Span, ParseStage, ParseMinor, StageOk;
    var st, w := x.name + (x.level + x.rest), Version(Number(x.major, |x.major|), 0, 0, INVALID, 0);
    var t := SecondText(x.second, st);
    StageComplete(x.name, x.level, x.rest, w);
    ScanWritten(x.major, t, MAJOR_DIGITS);
    if x.second.Second? {
      assert (x.major + t)[|x.major| + 1..] == t[1..];
      SecondComplete(x.second, st, w);
      StageComplete(x.name, x.level, x.rest, w.(minor := Denoted(x).minor, revision := Denoted(x).revision));
    }
  }

  lemma EndsIff(t: string)
    ensures Ends(t) <==> IsEnd(First(t))
  {
  }

  lemma StageSound(s: string, w: Version) returns (name: string, level: string, rest: string)
    requires ParseStage(s, w).Good? && w.level == 0
    ensures StageOk(name, level, rest) && s == name + (level + rest)
  {
    hide Span, Number;
    if IsEnd(First(s)) {
      EndsIff(s);
      name, level, rest := "", "", s;
    } else {
      var k := StageAt(s).1;
      var n := Span(s[k..], STAGE_LEVEL_DIGITS);
      name, level, rest := s[..k], s[k..][..n], s[k..][n..];
      EndsIff(rest);
      assert s[k..] == level + rest && s == name + s[k..];
      NumberPrefix(level, rest, n);
      assert name == "d" || name == "a" || name == "b" || name == "f" || name == "fc";
    }
  }

  /** A text taken apart after its first `n` characters. */
  lemma Apart(s: string, n: nat)
    requires n <= |s|
    ensures s == s[..n] + s[n..]
    ensures First(s[n..]) == '.' ==> n < |s| && s[n..] == "." + s[n + 1..]
  {
  }

  lemma ThirdSound(s: string, w: Version) returns (third: Third, st: string)
    ensures ThirdOk(third) && third.Third? && ThirdText(third, st) == "." + s
    ensures ParseRevision(s, w) == ParseStage(st, w.(revision := Number(third.digits, |third.digits|)))
  {
    hide Span, Number, ParseStage;
    var n := Span(s, REVISION_DIGITS);
    var d, t := s[..n], s[n..];
    assert s == d + t;
    NumberPrefix(d, t, n);
    if n == REVISION_DIGITS && First(t) == '.' {
      third, st := Third(d, true), s[n + 1..];
      assert t == "." + st;
    } else {
      third, st := Third(d, false), t;
    }
  }

  lemma SecondSound(s: string, w: Version) returns (second: Second, st: string, w': Version)
    requires w.revision == 0
    ensures SecondOk(second) && second.Second? && SecondText(second, st) == "." + s
    ensures w'.level == w.level && ParseMinor(s, w) == ParseStage(st, w')
  {
    hide Span, Number, ParseStage, ParseRevision, ThirdText, First;
    var n := Span(s, MINOR_DIGITS);
    Apart(s, n);
    if First(s[n..]) == '.' {
      var third;
      third, st := ThirdSound(s[n + 1..], w.(minor := Number(s, n)));
      w' := w.(minor := Number(s, n), revision := Number(third.digits, |third.digits|));
      second := Second(s[..n], third);
    } else {
      second, st, w' := Second(s[..n], NoThird), s[n..], w.(minor := Number(s, n));
      NoSecondText(st);
    }
  }

  lemma NoSecondText(st: string)
    ensures SecondText(NoSecond, st) == ThirdText(NoThird, st) == st && SecondOk(NoSecond) && ThirdOk(NoThird)
  {
  }

  lemma MajorSound(s: string) returns (x: Written)
    ensures ParseMajor(s).Good? ==> WrittenOk(x) && WrittenText(x) == s
  {
    hide Span, Number, ParseStage, ParseMinor, StageOk, SecondText, SecondOk, First;
    x := Written("", NoSecond, "", "", "");
    if ParseMajor(s).Good? {
      var n := Span(s, MAJOR_DIGITS);
      var w := Version(Number(s, n), 0, 0, INVALID, 0);
      var second, st, w' := NoSecond, s[n..], w;
      NoSecondText(st);
      Apart(s, n);
      if First(s[n..]) == '.' {
        second, st, w' := SecondSound(s[n + 1..], w);
      }
      var name, level, rest := StageSound(st, w');
      x := Written(s[..n], second, name, level, rest);
    }
  }

  /** And no other text is. */
  lemma ParsesWritten(s: string)
    ensures Parse(s) != -1 <==> exists x :: WrittenOk(x) && WrittenText(x) == s
  {
    hide ParseMajor, WrittenOk, WrittenText;
    ParseOrders(s, s);
    var x := MajorSound(s);
    forall y | WrittenOk(y) && WrittenText(y) == s ensures ParseMajor(s).Good? {
      WrittenParses(y);
    }
    if ParseMajor(s).Good? {
      ParseCanonical(s);
      EncodeOrders(ParseMajor(s).v, ParseMajor(s).v);
    }
  }

  // ---------- Ordinary decimal numbers ----------

  /** The written form of decimal numbers, a stage and a level. */
  function Ordinary(ns: seq<nat>, name: string, level: string, t: string): Written
    requires Numbered(ns)
  {
    Written(Decimal(ns[0]),
            if |ns| == 1 then NoSecond
            else Second(Decimal(ns[1]), if |ns| == 2 then NoThird else Third(Decimal(ns[2]), false)),
            name, level, t)
  }

  lemma OrdinaryDenotes(ns: seq<nat>, name: string, level: string, t: string)
    requires Numbered(ns) && StageOk(name, level, t)
    ensures WrittenOk(Ordinary(ns, name, level, t))
    ensures WrittenText(Ordinary(ns, name, level, t)) == Dotted(ns, name + (level + t))
    ensures Encode(Denoted(Ordinary(ns, name, level, t))) == Value(ns, StageNumber(name), Number(level, |level|))
  {
    hide Decimal, Number, StageOk;
    NumberOfDecimal(ns[0]);
    if |ns| > 1 {
      NumberOfDecimal(ns[1]);
    }
    if |ns| > 2 {
      NumberOfDecimal(ns[2]);
    }
  }

  /** Every way to write a version with a stage, and what it denotes. */
  lemma SpelledParses(ns: seq<nat>, k: int, level: nat, t: string)
    requires Numbered(ns) && 0 <= k < 5 && level <= 255 && (k >= 3 ==> level > 0) && Ends(t)
    ensures Parse(Dotted(ns, SPELLINGS[k].0 + (Decimal(level) + t))) == Value(ns, SPELLINGS[k].1, level)
  {
    hide Parse, Decimal, Dotted, Value, WrittenOk, Denoted, Number;
    NumberOfDecimal(level);
    var name := SPELLINGS[k].0;
    assert name == ["d", "a", "b", "f", "fc"][k];
    OrdinaryDenotes(ns, name, Decimal(level), t);
    WrittenParses(Ordinary(ns, name, Decimal(level), t));
  }

  /** And without one, which denotes a release. */
  lemma ReleaseParses(ns: seq<nat>, t: string)
    requires Numbered(ns) && Ends(t)
    ensures Parse(Dotted(ns, t)) == Value(ns, 9, 0)
  {
    hide Parse, Decimal, Dotted, Value, WrittenOk, Denoted;
    assert "" + ("" + t) == t;
    OrdinaryDenotes(ns, "", "", t);
    WrittenParses(Ordinary(ns, "", "", t));
  }
}
