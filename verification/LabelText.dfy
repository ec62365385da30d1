/** Label text: `mac_externalize` prints the labels of all policies as `name/data,name/data`, and
  `mac_internalize` parses such text and hands each pair to the policies.
 */
module LabelText {
  import opened Errno

  datatype Pair = Pair(name: string, data: string)

  // ---------- Text and its parts ----------

  function Part(p: Pair): string { p.name + ("/" + p.data) }

  /** The entries as they are appended to the buffer, each followed by a comma. */
  function Render(ps: seq<Pair>): string {
    if ps == [] then "" else Part(ps[0]) + ("," + Render(ps[1..]))
  }

  /** The finished text: the last comma is trimmed. */
  function Trim(s: string): string { if s == "" then "" else s[..|s| - 1] }

  lemma {:induction false} RenderAppend(ps: seq<Pair>, qs: seq<Pair>)
    ensures Render(ps + qs) == Render(ps) + Render(qs)
  {
    hide Part;
    if ps == [] {
      assert ps + qs == qs;
    } else {
      RenderAppend(ps[1..], qs);
      assert (ps + qs)[1..] == ps[1..] + qs;
      var a, b, c := Part(ps[0]), Render(ps[1..]), Render(qs);
      assert a + ("," + (b + c)) == (a + ("," + b)) + c;
    }
  }

  lemma RenderOne(p: Pair)
    ensures Render([p]) == Part(p) + ","
  {
    assert [p][1..] == [] && "," + "" == ",";
  }

  /** The index of the first `c`, or the length for none. */
  function Find(s: string, c: char): (i: nat)
    ensures i <= |s| && (i < |s| ==> s[i] == c) && forall j :: 0 <= j < i ==> s[j] != c
  {
    if s == "" || s[0] == c then 0 else 1 + Find(s[1..], c)
  }

  lemma {:induction false} FindIs(s: string, c: char, t: string)
    requires c !in s
    ensures Find(s + ([c] + t), c) == |s| && Find(s, c) == |s|
  {
    if s == "" {
    } else {
      FindIs(s[1..], c, t);
      assert (s + ([c] + t))[1..] == s[1..] + ([c] + t);
    }
  }

  /** What repeated `strsep` on a comma yields. */
  function Split(s: string): (parts: seq<string>)
    ensures |parts| >= 1
    decreases |s|
  {
    var i := Find(s, ',');
    if i == |s| then [s] else [s[..i]] + Split(s[i + 1..])
  }

  function Parts(ps: seq<Pair>): seq<string> {
    if ps == [] then [] else [Part(ps[0])] + Parts(ps[1..])
  }

  /** Names and data that the text form can carry. */
  predicate Plain(p: Pair) {
    '/' !in p.name && ',' !in p.name && ',' !in p.data
  }

  lemma SplitFirst(part: string, t: string)
    requires ',' !in part
    ensures Split(part) == [part] && Split(part + ("," + t)) == [part] + Split(t)
  {
    hide Find;
    FindIs(part, ',', t);
    var s := part + ([','] + t);
    assert s[..|part|] == part && s[|part| + 1..] == t;
    assert "," + t == [','] + t;
  }

  lemma TrimTail(a: string, b: string)
    requires b != ""
    ensures Trim(a + b) == a + Trim(b)
  {
  }

  /** Splitting the finished text gives back the entries. */
  lemma {:induction false} SplitText(ps: seq<Pair>)
    requires ps != [] && AllPlain(ps)
    ensures Render(ps) != "" && Split(Trim(Render(ps))) == Parts(ps)
  {
    hide Split, Trim;
    var part, rest := Part(ps[0]), ps[1..];
    if rest == [] {
      assert ps == [ps[0]];
      RenderOne(ps[0]);
      TrimTail(part, ",");
      assert Trim(",") == "" by { TrimOne(); }
      assert part + "" == part && Parts(ps) == [part];
      SplitFirst(part, "");
    } else {
      SplitText(rest);
      TrimTail(part, "," + Render(rest));
      TrimTail(",", Render(rest));
      SplitFirst(part, Trim(Render(rest)));
    }
  }

  lemma TrimOne()
    ensures Trim(",") == ""
  {
  }

  // ---------- The policies' side ----------

  /** A label namespace and the handles of the policies that listen to it. */
  datatype Element = Element(name: string, listeners: seq<int>)

  /** What a policy's externalize hook does: no policy or no hook, or the text it appends and the
      error it returns. */
  datatype Answer = Absent | Appends(data: string, error: int)

  function Strip(name: string): string {
    if name != "" && name[0] == '?' then name[1..] else name
  }

  datatype Selector = All | Only(element: string)

  predicate Selected(e: Element, sel: Selector) {
    match sel
    case All => e.name == "" || e.name[0] != '?'
    case Only(element) => Strip(e.name) == element
  }

  /** A call of an externalize hook: the namespace printed, the text appended and the error returned. */
  datatype Call = Call(name: string, data: string, error: int)

  function CallOf(e: Element, a: Answer): seq<Call> {
    if a.Appends? then [Call(Strip(e.name), a.data, a.error)] else []
  }

  function ListenerCalls(e: Element, ls: seq<int>, ext: (int, string) -> Answer): seq<Call> {
    if ls == [] then [] else ListenerCalls(e, ls[..|ls| - 1], ext) + CallOf(e, ext(ls[|ls| - 1], e.name))
  }

  function ListCalls(es: seq<Element>, sel: Selector, ext: (int, string) -> Answer): seq<Call> {
    if es == [] then []
    else
      var e := es[|es| - 1];
      ListCalls(es[..|es| - 1], sel, ext) + if Selected(e, sel) then ListenerCalls(e, e.listeners, ext) else []
  }

  /** The entries that remain: an answer of ENOENT takes back what was appended. */
  function EntriesOf(cs: seq<Call>): seq<Pair> {
    if cs == [] then []
    else
      var c := cs[|cs| - 1];
      EntriesOf(cs[..|cs| - 1]) + if c.error == 0 then [Pair(c.name, c.data)] else []
  }

  lemma {:induction false} EntriesAppend(a: seq<Call>, b: seq<Call>)
    ensures EntriesOf(a + b) == EntriesOf(a) + EntriesOf(b)
    ensures Render(EntriesOf(a + b)) == Render(EntriesOf(a)) + Render(EntriesOf(b))
  {
    hide Render;
    if b == [] {
      assert a + b == a;
    } else {
      EntriesAppend(a, b[..|b| - 1]);
      assert (a + b)[..|a + b| - 1] == a + b[..|b| - 1];
    }
    RenderAppend(EntriesOf(a), EntriesOf(b));
  }

  const INT_MAX := 0x7FFF_FFFF

  /** `sbuf_capacity`, whose subtraction is of signed integers and whose result is a 64-bit size. */
  function Capacity(size: int, len: int): int {
    (size - len - 1) % 0x1_0000_0000_0000_0000
  }

  /** It is the room left exactly if the storage holds the text and a NUL, so never with a length of 0. */
  lemma CapacityIff(size: int, len: int)
    requires 0 <= size <= INT_MAX && 0 <= len <= INT_MAX
    ensures Capacity(size, len) == size - len - 1 <==> len < size
    ensures len >= size ==> Capacity(size, len) > INT_MAX
  {
  }

  /** A fixed-length string buffer; one byte of its storage is kept for the NUL. */
  class Sbuf {
    var text: string
    const size: int
    var overflowed: bool

    ghost predicate Valid()
      reads this
    {
      |text| < size <= INT_MAX
    }

    constructor (size: int)
      requires 1 <= size <= INT_MAX
      ensures Valid() && text == "" && !overflowed && this.size == size
    {
      this.text, this.size, this.overflowed := "", size, false;
    }

    /** Append all of `s` if there was no overflow and there is room, or else nothing. */
    method Append(s: string) returns (error: int)
      requires Valid()
      modifies this
      ensures Valid() && (error == 0 || error == -1)
      ensures error == 0 <==> !old(overflowed) && |old(text)| + |s| < size
      ensures overflowed <==> error != 0
      ensures text == if error == 0 then old(text) + s else old(text)
    {
      if overflowed {
        return -1;
      }
      if |s| > Capacity(size, |text|) {
        overflowed := true;
        return -1;
      }
      text := text + s;
      return 0;
    }

    method SetPos(pos: int)
      requires Valid() && 0 <= pos <= |text|
      modifies this
      ensures Valid() && text == old(text[..pos]) && overflowed == old(overflowed)
    {
      text := text[..pos];
    }
  }

  // ---------- What fits ----------

  /** The length of the text after some calls, on top of `len` characters. */
  function Used(cs: seq<Call>, len: int): int {
    len + |Render(EntriesOf(cs))|
  }

  /** Call `k` finds room for name, slash and data, and for the comma if it returns 0. */
  predicate CallFits(cs: seq<Call>, k: int, len: int, size: int)
    requires 0 <= k < |cs|
  {
    Used(cs[..k], len) + |cs[k].name| + 1 + |cs[k].data| + (if cs[k].error == 0 then 1 else 0) < size
  }

  /** Call `k` finds room for name and slash, and takes them back. */
  predicate TakenBack(cs: seq<Call>, k: int, len: int, size: int)
    requires 0 <= k < |cs|
  {
    cs[k].error == 2 && Used(cs[..k], len) + |cs[k].name| + 1 < size
  }

  ghost predicate AllFit(cs: seq<Call>, len: int, size: int) {
    forall k :: 0 <= k < |cs| ==> CallFits(cs, k, len, size)
  }

  /** The buffer lets the calls through: all but the last fit, and the last fits or is taken back. */
  ghost predicate Goes(overflowed: bool, cs: seq<Call>, len: int, size: int) {
    cs != [] ==>
      && !overflowed
      && (forall k :: 0 <= k < |cs| - 1 ==> CallFits(cs, k, len, size))
      && (CallFits(cs, |cs| - 1, len, size) || TakenBack(cs, |cs| - 1, len, size))
  }

  lemma FitsLeft(a: seq<Call>, b: seq<Call>, k: int, len: int, size: int)
    requires 0 <= k < |a|
    ensures CallFits(a + b, k, len, size) <==> CallFits(a, k, len, size)
    ensures TakenBack(a + b, k, len, size) <==> TakenBack(a, k, len, size)
  {
    assert (a + b)[..k] == a[..k];
  }

  lemma FitsRight(a: seq<Call>, b: seq<Call>, k: int, len: int, size: int)
    requires 0 <= k < |b|
    ensures CallFits(a + b, |a| + k, len, size) <==> CallFits(b, k, Used(a, len), size)
    ensures TakenBack(a + b, |a| + k, len, size) <==> TakenBack(b, k, Used(a, len), size)
  {
    hide EntriesOf, Render;
    assert (a + b)[..|a| + k] == a + b[..k];
    EntriesAppend(a, b[..k]);
  }

  lemma AllFitAppend(a: seq<Call>, b: seq<Call>, len: int, size: int)
    ensures AllFit(a + b, len, size) <==> AllFit(a, len, size) && AllFit(b, Used(a, len), size)
  {
    hide CallFits, TakenBack;
    if AllFit(a + b, len, size) {
      forall k | 0 <= k < |a| ensures CallFits(a, k, len, size) {
        FitsLeft(a, b, k, len, size);
      }
      forall k | 0 <= k < |b| ensures CallFits(b, k, Used(a, len), size) {
        FitsRight(a, b, k, len, size);
      }
    } else {
      var k :| 0 <= k < |a + b| && !CallFits(a + b, k, len, size);
      if k < |a| {
        FitsLeft(a, b, k, len, size);
      } else {
        FitsRight(a, b, k - |a|, len, size);
      }
    }
  }

  /** A buffer that lets calls through lets the first of them through, and then the rest. */
  lemma GoesAppend(overflowed: bool, a: seq<Call>, b: seq<Call>, len: int, size: int)
    ensures Goes(overflowed, a + b, len, size) <==>
      Goes(overflowed, a, len, size) && Goes(overflowed || !AllFit(a, len, size), b, Used(a, len), size)
  {
    hide CallFits, TakenBack;
    if b == [] {
      assert a + b == a;
    } else {
      var init, n := b[..|b| - 1], |b| - 1;
      assert (a + b)[..|a + b| - 1] == a + init;
      AllFitAppend(a, init, len, size);
      FitsRight(a, b, n, len, size);
      GoesLast(overflowed, a + b, len, size);
      GoesLast(overflowed || !AllFit(a, len, size), b, Used(a, len), size);
      assert AllFit(a, len, size) && !overflowed ==> Goes(overflowed, a, len, size);
    }
  }

  lemma GoesLast(overflowed: bool, cs: seq<Call>, len: int, size: int)
    requires cs != []
    ensures Goes(overflowed, cs, len, size) <==>
      && !overflowed && AllFit(cs[..|cs| - 1], len, size)
      && (CallFits(cs, |cs| - 1, len, size) || TakenBack(cs, |cs| - 1, len, size))
  {
    hide CallFits, TakenBack;
    var n := |cs| - 1;
    assert cs == cs[..n] + [cs[n]];
    forall k | 0 <= k < n ensures CallFits(cs, k, len, size) <==> CallFits(cs[..n], k, len, size) {
      FitsLeft(cs[..n], [cs[n]], k, len, size);
    }
  }

  /** The label namespaces a call works with: the dynamic ones only if a dynamic policy is loaded. */
  datatype Lists = Lists(fixed: seq<Element>, dynamic: seq<Element>)

  /** The calls made for one namespace, or for all. */
  function Calls(ls: Lists, sel: Selector, ext: (int, string) -> Answer): seq<Call> {
    ListCalls(ls.fixed, sel, ext) + ListCalls(ls.dynamic, sel, ext)
  }

  /** A namespace asked for with a question mark may have no policy. */
  predicate MayBeAbsent(element: string) { element != "" && element[0] == '?' }

  function SelectorOf(element: string): Selector {
    if MayBeAbsent(element) then Only(element[1..])
    else if element == "*" then All
    else Only(element)
  }

  /** The calls made for a comma-separated list of namespaces, and the entries that remain of them. */
  function AllCalls(ls: Lists, elements: seq<string>, ext: (int, string) -> Answer): seq<Call> {
    if elements == [] then []
    else AllCalls(ls, elements[..|elements| - 1], ext) + Calls(ls, SelectorOf(elements[|elements| - 1]), ext)
  }

  function Emitted(ls: Lists, elements: seq<string>, ext: (int, string) -> Answer): seq<Pair> {
    EntriesOf(AllCalls(ls, elements, ext))
  }

  // ---------- Parsing ----------

  /** What a policy's internalize hook does with a pair: no policy or no hook, or its error. */
  datatype Reply = NoHook | Error(errno: int)

  /** The policies asked about a name, in the order they are asked. */
  function Asked(es: seq<Element>, name: string): seq<int> {
    if es == [] then []
    else
      var e := es[|es| - 1];
      Asked(es[..|es| - 1], name) + if Strip(e.name) == name then e.listeners else []
  }

  /** The first error any of the policies returns, 0 for none. */
  function FirstError(handles: seq<int>, p: Pair, setter: (int, string, string) -> Reply): int {
    if handles == [] then 0
    else
      var before := FirstError(handles[..|handles| - 1], p, setter);
      if before != 0 then before
      else
        match setter(handles[|handles| - 1], p.name, p.data)
        case NoHook => 0
        case Error(errno) => errno
  }

  ghost predicate Heard(handles: seq<int>, p: Pair, setter: (int, string, string) -> Reply) {
    exists i :: 0 <= i < |handles| && setter(handles[i], p.name, p.data).Error?
  }

  /** What becomes of a pair: the first objection stands, and some policy must have been asked. */
  ghost function Verdict(ls: Lists, p: Pair, setter: (int, string, string) -> Reply): int {
    var handles := Asked(ls.fixed, p.name) + Asked(ls.dynamic, p.name);
    if FirstError(handles, p, setter) != 0 then FirstError(handles, p, setter)
    else if Heard(handles, p, setter) then 0 else ENOPOLICY
  }

  predicate HasSlash(part: string) { Find(part, '/') < |part| }

  function PairOf(part: string): Pair
    requires HasSlash(part)
  {
    var i := Find(part, '/');
    Pair(part[..i], part[i + 1..])
  }

  ghost predicate AllAccepted(ls: Lists, ps: seq<Pair>, setter: (int, string, string) -> Reply) {
    forall i :: 0 <= i < |ps| ==> Verdict(ls, ps[i], setter) == 0
  }

  /** The pairs handed on: up to the first part without a slash, or the first pair not accepted. */
  ghost function Delivered(ls: Lists, parts: seq<string>, setter: (int, string, string) -> Reply): seq<Pair> {
    if parts == [] || !HasSlash(parts[0]) then []
    else
      var p := PairOf(parts[0]);
      [p] + if Verdict(ls, p, setter) == 0 then Delivered(ls, parts[1..], setter) else []
  }

  /** The error of the first part without a slash or the first pair not accepted, 0 for none. */
  ghost function Outcome(ls: Lists, parts: seq<string>, setter: (int, string, string) -> Reply): int {
    if parts == [] then 0
    else if !HasSlash(parts[0]) then EINVAL
    else
      var error := Verdict(ls, PairOf(parts[0]), setter);
      if error != 0 then error else Outcome(ls, parts[1..], setter)
  }

  lemma PairOfPart(p: Pair)
    requires '/' !in p.name
    ensures HasSlash(Part(p)) && PairOf(Part(p)) == p && Part(p) == p.name + "/" + p.data
  {
    FindIs(p.name, '/', p.data);
    assert "/" == ['/'];
    assert Part(p)[..|p.name|] == p.name && Part(p)[|p.name| + 1..] == p.data;
  }

  lemma {:induction false} DeliverParts(ls: Lists, ps: seq<Pair>, setter: (int, string, string) -> Reply)
    requires AllPlain(ps) && AllAccepted(ls, ps, setter)
    ensures Delivered(ls, Parts(ps), setter) == ps && Outcome(ls, Parts(ps), setter) == 0
  {
    hide Verdict, HasSlash, PairOf, Part;
    if ps == [] {
    } else {
      PairOfPart(ps[0]);
      assert Parts(ps)[1..] == Parts(ps[1..]);
      DeliverParts(ls, ps[1..], setter);
      assert ps == [ps[0]] + ps[1..];
    }
  }

  /** The namespaces and the hooks keep to what the text form can carry. */
  ghost predicate PlainNames(es: seq<Element>) {
    forall i :: 0 <= i < |es| ==> '/' !in Strip(es[i].name) && ',' !in Strip(es[i].name)
  }

  predicate PlainAnswer(a: Answer) {
    a.Appends? ==> ',' !in a.data
  }

  ghost predicate PlainData(ext: (int, string) -> Answer) {
    forall h, name :: PlainAnswer(ext(h, name))
  }

  ghost predicate AllPlain(ps: seq<Pair>) {
    forall i :: 0 <= i < |ps| ==> Plain(ps[i])
  }

  predicate PlainCall(c: Call) { Plain(Pair(c.name, c.data)) }

  ghost predicate PlainCalls(cs: seq<Call>) {
    forall i :: 0 <= i < |cs| ==> PlainCall(cs[i])
  }

  lemma {:induction false} EntriesPlain(cs: seq<Call>)
    requires PlainCalls(cs)
    ensures AllPlain(EntriesOf(cs))
  {
    if cs == [] {
    } else {
      EntriesPlain(cs[..|cs| - 1]);
      assert PlainCall(cs[|cs| - 1]);
    }
  }

  lemma {:induction false} ListenersPlain(e: Element, ls: seq<int>, ext: (int, string) -> Answer)
    requires '/' !in Strip(e.name) && ',' !in Strip(e.name) && PlainData(ext)
    ensures PlainCalls(ListenerCalls(e, ls, ext))
  {
    if ls == [] {
    } else {
      ListenersPlain(e, ls[..|ls| - 1], ext);
      var h := ls[|ls| - 1];
      assert PlainAnswer(ext(h, e.name));
    }
  }

  lemma {:induction false} ListPlain(es: seq<Element>, sel: Selector, ext: (int, string) -> Answer)
    requires PlainNames(es) && PlainData(ext)
    ensures PlainCalls(ListCalls(es, sel, ext))
  {
    hide PlainData, PlainCall;
    if es == [] {
    } else {
      ListPlain(es[..|es| - 1], sel, ext);
      ListenersPlain(es[|es| - 1], es[|es| - 1].listeners, ext);
    }
  }

  lemma {:induction false} CallsPlain(ls: Lists, elements: seq<string>, ext: (int, string) -> Answer)
    requires PlainNames(ls.fixed) && PlainNames(ls.dynamic) && PlainData(ext)
    ensures PlainCalls(AllCalls(ls, elements, ext))
  {
    hide PlainNames, PlainData, PlainCall, ListCalls;
    if elements == [] {
    } else {
      CallsPlain(ls, elements[..|elements| - 1], ext);
      ListPlain(ls.fixed, SelectorOf(elements[|elements| - 1]), ext);
      ListPlain(ls.dynamic, SelectorOf(elements[|elements| - 1]), ext);
    }
  }

  /** Text whose last comma was not trimmed ends in an empty part. */
  lemma {:induction false} SplitUntrimmed(ps: seq<Pair>)
    requires AllPlain(ps)
    ensures Split(Render(ps)) == Parts(ps) + [""]
  {
    hide Split;
    if ps == [] {
      SplitFirst("", "");
    } else {
      SplitUntrimmed(ps[1..]);
      SplitFirst(Part(ps[0]), Render(ps[1..]));
    }
  }

  lemma {:induction false} DeliverThenEmpty(ls: Lists, ps: seq<Pair>, setter: (int, string, string) -> Reply)
    requires AllPlain(ps) && AllAccepted(ls, ps, setter)
    ensures Delivered(ls, Parts(ps) + [""], setter) == ps && Outcome(ls, Parts(ps) + [""], setter) == EINVAL
  {
    hide Verdict, PairOf, Part;
    if ps == [] {
      assert Parts(ps) + [""] == [""];
    } else {
      PairOfPart(ps[0]);
      assert (Parts(ps) + [""])[1..] == Parts(ps[1..]) + [""];
      DeliverThenEmpty(ls, ps[1..], setter);
      assert ps == [ps[0]] + ps[1..];
    }
  }

  /** The round trip: the text of at least one entry that `Externalize` produces makes `Internalize`
      succeed and hand on exactly the emitted pairs, in order, if the policies accept each of them. */
  lemma RoundTrip(ls: Lists, elements: seq<string>, ext: (int, string) -> Answer, text: string,
                  setter: (int, string, string) -> Reply)
    requires PlainNames(ls.fixed) && PlainNames(ls.dynamic) && PlainData(ext)
    requires Emitted(ls, elements, ext) != [] && text == Trim(Render(Emitted(ls, elements, ext)))
    requires AllAccepted(ls, Emitted(ls, elements, ext), setter)
    ensures Delivered(ls, Split(text), setter) == Emitted(ls, elements, ext)
    ensures Outcome(ls, Split(text), setter) == 0
  {
    hide Verdict, AllCalls, EntriesOf;
    CallsPlain(ls, elements, ext);
    EntriesPlain(AllCalls(ls, elements, ext));
    SplitText(Emitted(ls, elements, ext));
    DeliverParts(ls, Emitted(ls, elements, ext), setter);
  }

  /** The text in characters: name, slash and data of each pair, with commas between them. */
  function Joined(ps: seq<Pair>): string
    requires ps != []
  {
    var last := ps[|ps| - 1];
    (if |ps| == 1 then "" else Joined(ps[..|ps| - 1]) + ",") + last.name + "/" + last.data
  }

  lemma {:induction false} TextIsJoined(ps: seq<Pair>)
    requires ps != []
    ensures Render(ps) == Joined(ps) + "," && Trim(Render(ps)) == Joined(ps)
  {
    hide Render, Trim;
    var n := |ps| - 1;
    var init, last := ps[..n], ps[n];
    assert ps == init + [last];
    RenderAppend(init, [last]);
    RenderOne(last);
    if n == 0 {
      RenderNothing();
      assert Render(ps) == Joined(ps) + ",";
    } else {
      TextIsJoined(init);
      assert (Joined(init) + ",") + (last.name + ("/" + last.data) + ",") == Joined(ps) + ",";
    }
    TrimTail(Joined(ps), ",");
    TrimOne();
    assert Joined(ps) + "" == Joined(ps);
  }

  lemma RenderNothing()
    ensures Render([]) == ""
  {
  }

  /** Text left untrimmed does not make the trip: every pair is handed on, and then the call fails. */
  lemma UntrimmedFails(ls: Lists, elements: seq<string>, ext: (int, string) -> Answer,
                       setter: (int, string, string) -> Reply)
    requires PlainNames(ls.fixed) && PlainNames(ls.dynamic) && PlainData(ext)
    requires AllAccepted(ls, Emitted(ls, elements, ext), setter)
    ensures var text := Render(Emitted(ls, elements, ext));
      Delivered(ls, Split(text), setter) == Emitted(ls, elements, ext) && Outcome(ls, Split(text), setter) == EINVAL
  {
    hide Verdict, AllCalls, EntriesOf;
    CallsPlain(ls, elements, ext);
    EntriesPlain(AllCalls(ls, elements, ext));
    SplitUntrimmed(Emitted(ls, elements, ext));
    DeliverThenEmpty(ls, Emitted(ls, elements, ext), setter);
  }

  /** When no policy has anything to say the text is empty, and an empty text is not accepted. */
  lemma EmptyText(ls: Lists, setter: (int, string, string) -> Reply)
    ensures Trim(Render([])) == "" && Split("") == [""] && !HasSlash("") && Delivered(ls, Split(""), setter) == []
    ensures Outcome(ls, Split(""), setter) == 22
  {
  }

  // ---------- The framework ----------

  /** An answer that does not end the call: an entry, or ENOENT, which is 2. */
  predicate Compliant(c: Call) { c.error == 0 || c.error == 2 }

  ghost predicate Obliging(cs: seq<Call>) {
    forall i :: 0 <= i < |cs| ==> Compliant(cs[i])
  }

  /** Some hook answers with `error`, which is neither success nor ENOENT. */
  ghost predicate RefusesWith(cs: seq<Call>, error: int) {
    exists i :: 0 <= i < |cs| && !Compliant(cs[i]) && cs[i].error == error
  }

  /** A single namespace is required and no policy has an entry for it. */
  ghost predicate Missing(ls: Lists, element: string, ext: (int, string) -> Answer) {
    EntriesOf(Calls(ls, SelectorOf(element), ext)) == [] && element != "*" && !MayBeAbsent(element)
  }

  lemma MissingWhen(ls: Lists, element: string, ext: (int, string) -> Answer)
    ensures Missing(ls, element, ext) <==>
      |EntriesOf(Calls(ls, SelectorOf(element), ext))| == 0 && SelectorOf(element) != All && !MayBeAbsent(element)
  {
    hide EntriesOf, Calls;
  }

  ghost predicate NoneMissing(ls: Lists, elements: seq<string>, ext: (int, string) -> Answer) {
    forall i :: 0 <= i < |elements| ==> !Missing(ls, elements[i], ext)
  }

  /** What asking the hooks does to a buffer: success exactly if all oblige and the buffer lets them
      through, and then the entries are appended; the buffer overflows if something did not fit. */
  ghost predicate Ran(cs: seq<Call>, was: string, wasOver: bool, text: string, over: bool, size: int, error: int) {
    if error == 0 then
      && Obliging(cs) && Goes(wasOver, cs, |was|, size)
      && text == was + Render(EntriesOf(cs))
      && (over <==> wasOver || !AllFit(cs, |was|, size))
    else
      RefusesWith(cs, error) || (error == -1 && !Goes(wasOver, cs, |was|, size))
  }

  lemma RanNothing(text: string, over: bool, size: int)
    ensures Ran([], text, over, text, over, size, 0)
  {
  }

  /** Asking some and then, after a success, others is asking all. */
  lemma RanOn(a: seq<Call>, b: seq<Call>, was: string, wasOver: bool, mid: string, midOver: bool,
              text: string, over: bool, size: int, error: int)
    requires Ran(a, was, wasOver, mid, midOver, size, 0) && Ran(b, mid, midOver, text, over, size, error)
    ensures Ran(a + b, was, wasOver, text, over, size, error)
  {
    hide Goes, AllFit, EntriesOf, Render;
    EntriesAppend(a, b);
    AllFitAppend(a, b, |was|, size);
    GoesAppend(wasOver, a, b, |was|, size);
    assert |mid| == Used(a, |was|);
    if error != 0 && RefusesWith(b, error) {
      var i :| 0 <= i < |b| && !Compliant(b[i]) && b[i].error == error;
      assert (a + b)[|a| + i] == b[i];
    }
  }

  /** After a failure nobody else is asked. */
  lemma RanStop(a: seq<Call>, b: seq<Call>, was: string, wasOver: bool, text: string, over: bool, size: int, error: int)
    requires Ran(a, was, wasOver, text, over, size, error) && error != 0
    ensures Ran(a + b, was, wasOver, text, over, size, error)
  {
    hide Goes, AllFit, EntriesOf, Render;
    GoesAppend(wasOver, a, b, |was|, size);
    if RefusesWith(a, error) {
      var i :| 0 <= i < |a| && !Compliant(a[i]) && a[i].error == error;
      assert (a + b)[i] == a[i];
    }
  }

  lemma RanNotMissing(cs: seq<Call>, was: string, wasOver: bool, text: string, over: bool, size: int)
    ensures !Ran(cs, was, wasOver, text, over, size, ENOENT)
  {
  }

  /** Asking the hooks from an empty buffer on. */
  lemma RanMeans(cs: seq<Call>, text: string, over: bool, size: int, error: int)
    requires Ran(cs, "", false, text, over, size, error)
    ensures error == 0 <==> Obliging(cs) && Goes(false, cs, 0, size)
    ensures error == 0 ==> text == Render(EntriesOf(cs)) && (over <==> !AllFit(cs, 0, size))
    ensures error != 0 ==> RefusesWith(cs, error) || (error == -1 && !Goes(false, cs, 0, size))
  {
    hide Goes, AllFit, EntriesOf, Render;
    RefusesIff(cs);
    assert error == 0 ==> "" + Render(EntriesOf(cs)) == Render(EntriesOf(cs));
  }

  /** What the buffer makes of a single call. */
  lemma RanOne(c: Call, len: int, size: int)
    ensures EntriesOf([c]) == if c.error == 0 then [Pair(c.name, c.data)] else []
    ensures Render(EntriesOf([c])) == if c.error == 0 then Part(Pair(c.name, c.data)) + "," else ""
    ensures CallFits([c], 0, len, size) <==>
      len + |c.name| + 1 + |c.data| + (if c.error == 0 then 1 else 0) < size
    ensures TakenBack([c], 0, len, size) <==> c.error == 2 && len + |c.name| + 1 < size
    ensures AllFit([c], len, size) <==> CallFits([c], 0, len, size)
    ensures forall over :: Goes(over, [c], len, size) <==>
      !over && (CallFits([c], 0, len, size) || TakenBack([c], 0, len, size))
  {
    assert [c][..0] == [];
    RenderOne(Pair(c.name, c.data));
  }

  lemma RefusesIff(cs: seq<Call>)
    ensures Obliging(cs) <==> forall error :: !RefusesWith(cs, error)
  {
    if !Obliging(cs) {
      var i :| 0 <= i < |cs| && !Compliant(cs[i]);
      assert RefusesWith(cs, cs[i].error);
    }
  }

  /** `sbuf_new` takes at most INT_MAX bytes. */
  function SbufSize(outbuflen: int): int {
    if outbuflen > 0x7FFF_FFFF then 0x7FFF_FFFF else outbuflen
  }

  class Framework {
    var fixedElements: seq<Element>
    var dynamicElements: seq<Element>
    var numloaded: int
    var staticmax: int
    var policyBusy: int

    function Consulted(): Lists
      reads this
    {
      Lists(fixedElements, if numloaded > staticmax then dynamicElements else [])
    }

    method ConditionalBusy() returns (taken: bool)
      modifies this`policyBusy
      ensures taken == (numloaded > staticmax)
      ensures policyBusy == old(policyBusy) + if taken then 1 else 0
    {
      taken := numloaded > staticmax;
      if taken {
        policyBusy := policyBusy + 1;
      }
    }

    method Unbusy()
      requires policyBusy > 0
      modifies this`policyBusy
      ensures policyBusy == old(policyBusy) - 1
    {
      policyBusy := policyBusy - 1;
    }

    /** Let one listener append its entry; an answer of ENOENT takes it back. */
    method ExternalizeOne(e: Element, answer: Answer, sb: Sbuf) returns (error: int, count: int)
      requires sb.Valid()
      modifies sb
      ensures sb.Valid()
      ensures Ran(CallOf(e, answer), old(sb.text), old(sb.overflowed), sb.text, sb.overflowed, sb.size, error)
      ensures error == 0 ==> count == |EntriesOf(CallOf(e, answer))|
    {
      hide Render, Strip, EntriesOf, Goes, AllFit, CallFits, TakenBack;
      error, count := 0, 0;
      ghost var was, wasOver := sb.text, sb.overflowed;
      if answer == Absent {
        NoEntries();
        RanNothing(sb.text, sb.overflowed, sb.size);
        return;
      }
      ghost var c := Call(Strip(e.name), answer.data, answer.error);
      RanOne(c, |was|, sb.size);
      var pos := |sb.text|;
      error := sb.Append(Strip(e.name) + "/");
      if error != 0 {
        return;
      }
      var _ := sb.Append(answer.data);
      error := answer.error;
      if error != 0 {
        if error != ENOENT {
          assert [c][0] == c;
          return;
        }
        sb.SetPos(pos);
        assert was + "" == was;
        return 0, 0;
      }
      error := sb.Append(",");
      assert ((was + (c.name + "/")) + c.data) + "," == was + (Part(Pair(c.name, c.data)) + ",");
      count := 1;
    }

    /** Ask every listener of one namespace. */
    method ExternalizeElement(e: Element, ext: (int, string) -> Answer, sb: Sbuf) returns (error: int, count: int)
      requires sb.Valid()
      modifies sb
      ensures sb.Valid()
      ensures Ran(ListenerCalls(e, e.listeners, ext), old(sb.text), old(sb.overflowed),
                  sb.text, sb.overflowed, sb.size, error)
      ensures error == 0 ==> count == |EntriesOf(ListenerCalls(e, e.listeners, ext))|
    {
      hide Ran, EntriesOf, CallOf, ListenerCalls;
      error, count := 0, 0;
      ghost var was, wasOver := sb.text, sb.overflowed;
      NoCalls(e, ext);
      RanNothing(was, wasOver, sb.size);
      assert e.listeners[..0] == [];
      for i := 0 to |e.listeners|
        invariant sb.Valid() && error == 0
        invariant Ran(ListenerCalls(e, e.listeners[..i], ext), was, wasOver, sb.text, sb.overflowed, sb.size, 0)
        invariant count == |EntriesOf(ListenerCalls(e, e.listeners[..i], ext))|
      {
        ghost var mid, midOver := sb.text, sb.overflowed;
        var answer, n := ext(e.listeners[i], e.name), 0;
        ghost var a, b := ListenerCalls(e, e.listeners[..i], ext), CallOf(e, answer);
        NextListener(e, e.listeners, i, ext);
        error, n := ExternalizeOne(e, answer, sb);
        RanOn(a, b, was, wasOver, mid, midOver, sb.text, sb.overflowed, sb.size, error);
        if error != 0 {
          ghost var rest := MoreListeners(e, e.listeners, i + 1, ext);
          RanStop(a + b, rest, was, wasOver, sb.text, sb.overflowed, sb.size, error);
          return;
        }
        EntriesAppend(a, b);
        count := count + n;
      }
      assert e.listeners[..|e.listeners|] == e.listeners;
    }

    /** Ask the listeners of every selected namespace of one list. */
    method ExternalizeList(es: seq<Element>, sel: Selector, ext: (int, string) -> Answer, sb: Sbuf)
        returns (error: int, count: int)
      requires sb.Valid()
      modifies sb
      ensures sb.Valid()
      ensures Ran(ListCalls(es, sel, ext), old(sb.text), old(sb.overflowed), sb.text, sb.overflowed, sb.size, error)
      ensures error == 0 ==> count == |EntriesOf(ListCalls(es, sel, ext))|
    {
      hide Ran, EntriesOf, ListenerCalls, ListCalls;
      error, count := 0, 0;
      ghost var was, wasOver := sb.text, sb.overflowed;
      NoElements(sel, ext);
      RanNothing(was, wasOver, sb.size);
      assert es[..0] == [];
      for i := 0 to |es|
        invariant sb.Valid() && error == 0
        invariant Ran(ListCalls(es[..i], sel, ext), was, wasOver, sb.text, sb.overflowed, sb.size, 0)
        invariant count == |EntriesOf(ListCalls(es[..i], sel, ext))|
      {
        ghost var a, b := ListCalls(es[..i], sel, ext), ListenerCalls(es[i], es[i].listeners, ext);
        NextElement(es, i, sel, ext);
        if !Selected(es[i], sel) {
          continue;
        }
        ghost var mid, midOver := sb.text, sb.overflowed;
        var n;
        error, n := ExternalizeElement(es[i], ext, sb);
        RanOn(a, b, was, wasOver, mid, midOver, sb.text, sb.overflowed, sb.size, error);
        if error != 0 {
          ghost var rest := MoreElements(es, i + 1, sel, ext);
          RanStop(a + b, rest, was, wasOver, sb.text, sb.overflowed, sb.size, error);
          return;
        }
        EntriesAppend(a, b);
        count := count + n;
      }
      assert es[..|es|] == es;
    }

    /** `mac_label_externalize`; whatever the outcome, the busy count is back where it was. */
    method LabelExternalize(element: string, ext: (int, string) -> Answer, sb: Sbuf) returns (error: int)
      requires policyBusy >= 0 && sb.Valid()
      modifies this`policyBusy, sb
      ensures policyBusy == old(policyBusy) && sb.Valid()
      ensures error == 0 ==> !Missing(Consulted(), element, ext)
      ensures error == 2 ==> Missing(Consulted(), element, ext)
      ensures Ran(Calls(Consulted(), SelectorOf(element), ext), old(sb.text), old(sb.overflowed),
                  sb.text, sb.overflowed, sb.size, if error == 2 then 0 else error)
    {
      hide Ran, EntriesOf, ListCalls, Missing;
      MissingWhen(Consulted(), element, ext);
      var sel := SelectorOf(element);
      var ignoreNotFound := MayBeAbsent(element);
      var count;
      ghost var was, wasOver := sb.text, sb.overflowed;
      ghost var a, b := ListCalls(fixedElements, sel, ext), ListCalls(Consulted().dynamic, sel, ext);
      error, count := ExternalizeList(fixedElements, sel, ext, sb);
      if error != 0 {
        RanStop(a, b, was, wasOver, sb.text, sb.overflowed, sb.size, error);
        RanNotMissing(a + b, was, wasOver, sb.text, sb.overflowed, sb.size);
        return;
      }
      ghost var mid, midOver := sb.text, sb.overflowed;
      NoElements(sel, ext);
      RanNothing(mid, midOver, sb.size);
      var busy := ConditionalBusy();
      if busy {
        var n;
        error, n := ExternalizeList(dynamicElements, sel, ext, sb);
        count := count + n;
        Unbusy();
      }
      RanOn(a, b, was, wasOver, mid, midOver, sb.text, sb.overflowed, sb.size, error);
      RanNotMissing(a + b, was, wasOver, sb.text, sb.overflowed, sb.size);
      EntriesAppend(a, b);
      if error == 0 && count == 0 {
        if sel != All && !ignoreNotFound {
          error := ENOENT;
        }
      }
    }

    /** `mac_externalize`: the text of every policy's label for every namespace in the list.  It succeeds
        exactly if every hook obliges, the buffer lets them through and no required namespace is
        missing.  If the last hook took back text that did not fit, the trailing comma stays. */
    method Externalize(elementList: string, ext: (int, string) -> Answer, outbuflen: int)
        returns (error: int, text: string)
      requires policyBusy >= 0 && outbuflen >= 1
      modifies this`policyBusy
      ensures policyBusy == old(policyBusy)
      ensures |text| < outbuflen
      ensures var elements, size := Split(elementList), SbufSize(outbuflen);
        var cs := AllCalls(Consulted(), elements, ext);
        && (error == 0 <==> Obliging(cs) && Goes(false, cs, 0, size) && NoneMissing(Consulted(), elements, ext))
        && (error == 0 ==> text == if AllFit(cs, 0, size) then Trim(Render(EntriesOf(cs))) else Render(EntriesOf(cs)))
        && (error != 0 ==>
              || RefusesWith(cs, error)
              || (error == -1 && !Goes(false, cs, 0, size))
              || (error == 2 && !NoneMissing(Consulted(), elements, ext)))
    {
      hide Ran, AllCalls, Calls, Missing, Split, EntriesOf;
      var sb := new Sbuf(SbufSize(outbuflen));
      var elements := Split(elementList);
      ghost var ls, cs := Consulted(), AllCalls(Consulted(), elements, ext);
      error := 0;
      NoNames(ls, ext);
      RanNothing("", false, sb.size);
      assert elements[..0] == [];
      for i := 0 to |elements|
        invariant policyBusy == old(policyBusy) && error == 0 && sb.Valid()
        invariant Ran(AllCalls(ls, elements[..i], ext), "", false, sb.text, sb.overflowed, sb.size, 0)
        invariant forall j :: 0 <= j < i ==> !Missing(ls, elements[j], ext)
      {
        ghost var mid, midOver := sb.text, sb.overflowed;
        ghost var a, b := AllCalls(ls, elements[..i], ext), Calls(ls, SelectorOf(elements[i]), ext);
        NextName(ls, elements, i, ext);
        error := LabelExternalize(elements[i], ext, sb);
        if error == ENOENT {
          break;
        }
        RanOn(a, b, "", false, mid, midOver, sb.text, sb.overflowed, sb.size, error);
        if error != 0 {
          ghost var rest := MoreNames(ls, elements, i + 1, ext);
          RanStop(a + b, rest, "", false, sb.text, sb.overflowed, sb.size, error);
          break;
        }
      }
      assert elements[..|elements|] == elements;
      if error != ENOENT {
        RanMeans(cs, sb.text, sb.overflowed, sb.size, error);
      }
      text := if sb.overflowed then sb.text else Trim(sb.text);
    }

    /** Hand a pair to the listeners of one namespace. */
    method InternalizeElement(ls: seq<int>, p: Pair, setter: (int, string, string) -> Reply)
        returns (error: int, count: int)
      ensures error == FirstError(ls, p, setter)
      ensures error == 0 ==> count >= 0 && (count > 0 <==> Heard(ls, p, setter))
    {
      error, count := 0, 0;
      for j := 0 to |ls|
        invariant error == 0 == FirstError(ls[..j], p, setter) && count >= 0
        invariant count > 0 <==> Heard(ls[..j], p, setter)
      {
        var reply := setter(ls[j], p.name, p.data);
        AskOneMore(ls[..j], ls[j], p, setter);
        assert ls[..j] + [ls[j]] == ls[..j + 1];
        if reply == NoHook {
          continue;
        }
        error := reply.errno;
        if error != 0 {
          FirstStands(ls[..j + 1], ls[j + 1..], p, setter);
          assert ls[..j + 1] + ls[j + 1..] == ls;
          return;
        }
        count := count + 1;
      }
      assert ls[..|ls|] == ls;
    }

    /** Hand a pair to the listeners of every matching namespace of one list. */
    method InternalizeList(es: seq<Element>, p: Pair, setter: (int, string, string) -> Reply)
        returns (error: int, count: int)
      ensures error == FirstError(Asked(es, p.name), p, setter)
      ensures error == 0 ==> count >= 0 && (count > 0 <==> Heard(Asked(es, p.name), p, setter))
    {
      hide FirstError, Heard;
      error, count := 0, 0;
      AskNobody(p, setter);
      assert es[..0] == [];
      for i := 0 to |es|
        invariant error == 0 == FirstError(Asked(es[..i], p.name), p, setter) && count >= 0
        invariant count > 0 <==> Heard(Asked(es[..i], p.name), p, setter)
      {
        assert es[..i + 1][..i] == es[..i];
        ghost var before := Asked(es[..i], p.name);
        if Strip(es[i].name) != p.name {
          assert before + [] == before;
          continue;
        }
        var n;
        error, n := InternalizeElement(es[i].listeners, p, setter);
        FirstStands(before, es[i].listeners, p, setter);
        HeardBoth(before, es[i].listeners, p, setter);
        if error != 0 {
          AskMore(es, i + 1, p, setter);
          return;
        }
        count := count + n;
      }
      assert es[..|es|] == es;
    }

    /** `mac_label_internalize`: whatever the outcome, the busy count is back where it was. */
    method LabelInternalize(p: Pair, setter: (int, string, string) -> Reply) returns (error: int)
      requires policyBusy >= 0
      modifies this`policyBusy
      ensures policyBusy == old(policyBusy)
      ensures error == Verdict(Consulted(), p, setter)
    {
      hide Asked, FirstError, Heard;
      var count;
      error, count := InternalizeList(fixedElements, p, setter);
      ghost var a, b := Asked(fixedElements, p.name), Asked(Consulted().dynamic, p.name);
      FirstStands(a, b, p, setter);
      HeardBoth(a, b, p, setter);
      if error != 0 {
        return;
      }
      var busy := ConditionalBusy();
      if busy {
        var n;
        error, n := InternalizeList(dynamicElements, p, setter);
        count := count + n;
        Unbusy();
      } else {
        AskNobody(p, setter);
      }
      if error == 0 && count == 0 {
        error := ENOPOLICY;
      }
    }

    /** `mac_internalize`: `handed` are the pairs handed on to the policies. */
    method Internalize(text: string, setter: (int, string, string) -> Reply) returns (error: int, handed: seq<Pair>)
      requires policyBusy >= 0
      modifies this`policyBusy
      ensures policyBusy == old(policyBusy)
      ensures handed == Delivered(Consulted(), Split(text), setter)
      ensures error == Outcome(Consulted(), Split(text), setter)
      ensures error == 0 ==> |handed| == |Split(text)|
    {
      hide Verdict, HasSlash, PairOf, Split, Delivered, Outcome;
      error, handed := 0, [];
      var parts := Split(text);
      ghost var ls := Consulted();
      var i := 0;
      assert parts[0..] == parts;
      while error == 0 && i < |parts|
        invariant 0 <= i <= |parts| && policyBusy == old(policyBusy)
        invariant error == 0 ==> |handed| == i
        invariant error == 0 ==> Delivered(ls, parts, setter) == handed + Delivered(ls, parts[i..], setter)
        invariant error == 0 ==> Outcome(ls, parts, setter) == Outcome(ls, parts[i..], setter)
        invariant error != 0 ==> Delivered(ls, parts, setter) == handed && Outcome(ls, parts, setter) == error
        decreases |parts| - i, error == 0
      {
        DeliverStep(ls, parts, i, setter);
        if !HasSlash(parts[i]) {
          error := EINVAL;
          break;
        }
        error := LabelInternalize(PairOf(parts[i]), setter);
        handed := handed + [PairOf(parts[i])];
        i := i + 1;
      }
      DeliverEnd(ls, setter);
      assert handed + [] == handed;
      assert i == |parts| ==> parts[i..] == [];
    }
  }

  lemma DeliverStep(ls: Lists, parts: seq<string>, i: int, setter: (int, string, string) -> Reply)
    requires 0 <= i < |parts|
    ensures !HasSlash(parts[i]) ==>
      Delivered(ls, parts[i..], setter) == [] && Outcome(ls, parts[i..], setter) == EINVAL
    ensures HasSlash(parts[i]) ==>
      var p := PairOf(parts[i]);
      if Verdict(ls, p, setter) != 0 then
        Delivered(ls, parts[i..], setter) == [p] && Outcome(ls, parts[i..], setter) == Verdict(ls, p, setter)
      else
        && Delivered(ls, parts[i..], setter) == [p] + Delivered(ls, parts[i + 1..], setter)
        && Outcome(ls, parts[i..], setter) == Outcome(ls, parts[i + 1..], setter)
  {
    hide Verdict, HasSlash, PairOf;
    assert parts[i..][1..] == parts[i + 1..];
  }

  lemma DeliverEnd(ls: Lists, setter: (int, string, string) -> Reply)
    ensures Delivered(ls, [], setter) == [] && Outcome(ls, [], setter) == 0
  {
  }

  lemma AskOneMore(handles: seq<int>, h: int, p: Pair, setter: (int, string, string) -> Reply)
    requires FirstError(handles, p, setter) == 0
    ensures FirstError(handles + [h], p, setter) ==
      if setter(h, p.name, p.data).Error? then setter(h, p.name, p.data).errno else 0
    ensures Heard(handles + [h], p, setter) <==> Heard(handles, p, setter) || setter(h, p.name, p.data).Error?
  {
    HeardBoth(handles, [h], p, setter);
    assert [h][0] == h && (handles + [h])[..|handles|] == handles;
  }

  lemma AskNobody(p: Pair, setter: (int, string, string) -> Reply)
    ensures Asked([], p.name) == [] && FirstError([], p, setter) == 0 && !Heard([], p, setter)
  {
  }

  lemma HeardBoth(a: seq<int>, b: seq<int>, p: Pair, setter: (int, string, string) -> Reply)
    ensures Heard(a + b, p, setter) <==> Heard(a, p, setter) || Heard(b, p, setter)
  {
    assert forall i :: 0 <= i < |a| ==> (a + b)[i] == a[i];
    assert forall i :: 0 <= i < |b| ==> (a + b)[|a| + i] == b[i];
  }

  /** An objection stands whoever is asked afterwards. */
  lemma {:induction false} FirstStands(a: seq<int>, b: seq<int>, p: Pair, setter: (int, string, string) -> Reply)
    ensures FirstError(a + b, p, setter) ==
      if FirstError(a, p, setter) != 0 then FirstError(a, p, setter) else FirstError(b, p, setter)
  {
    if b == [] {
      assert a + b == a;
    } else {
      FirstStands(a, b[..|b| - 1], p, setter);
      assert (a + b)[..|a + b| - 1] == a + b[..|b| - 1];
    }
  }

  lemma {:induction false} AskMore(es: seq<Element>, i: int, p: Pair, setter: (int, string, string) -> Reply)
    requires 0 <= i <= |es| && FirstError(Asked(es[..i], p.name), p, setter) != 0
    ensures FirstError(Asked(es, p.name), p, setter) == FirstError(Asked(es[..i], p.name), p, setter)
  {
    hide FirstError, Strip;
    if i == |es| {
      assert es[..i] == es;
    } else {
      var n := |es| - 1;
      assert es[..n][..i] == es[..i];
      AskMore(es[..n], i, p, setter);
      FirstStands(Asked(es[..n], p.name), if Strip(es[n].name) == p.name then es[n].listeners else [], p, setter);
    }
  }

  // The calls of lists that go on.

  lemma NoEntries()
    ensures EntriesOf([]) == []
  {
  }

  lemma NoCalls(e: Element, ext: (int, string) -> Answer)
    ensures ListenerCalls(e, [], ext) == [] && EntriesOf([]) == []
  {
  }

  lemma NextListener(e: Element, ls: seq<int>, i: int, ext: (int, string) -> Answer)
    requires 0 <= i < |ls|
    ensures ListenerCalls(e, ls[..i + 1], ext) == ListenerCalls(e, ls[..i], ext) + CallOf(e, ext(ls[i], e.name))
  {
    assert ls[..i + 1][..i] == ls[..i];
  }

  lemma {:induction false} MoreListeners(e: Element, ls: seq<int>, k: int, ext: (int, string) -> Answer)
      returns (rest: seq<Call>)
    requires 0 <= k <= |ls|
    ensures ListenerCalls(e, ls, ext) == ListenerCalls(e, ls[..k], ext) + rest
  {
    if k == |ls| {
      assert ls[..k] == ls;
      rest := [];
    } else {
      rest := MoreListeners(e, ls[..|ls| - 1], k, ext);
      assert ls[..|ls| - 1][..k] == ls[..k];
      rest := rest + CallOf(e, ext(ls[|ls| - 1], e.name));
    }
  }

  lemma NoElements(sel: Selector, ext: (int, string) -> Answer)
    ensures ListCalls([], sel, ext) == [] && EntriesOf([]) == []
  {
  }

  lemma NextElement(es: seq<Element>, i: int, sel: Selector, ext: (int, string) -> Answer)
    requires 0 <= i < |es|
    ensures ListCalls(es[..i + 1], sel, ext) == ListCalls(es[..i], sel, ext)
      + if Selected(es[i], sel) then ListenerCalls(es[i], es[i].listeners, ext) else []
    ensures !Selected(es[i], sel) ==> ListCalls(es[..i + 1], sel, ext) == ListCalls(es[..i], sel, ext)
  {
    hide ListenerCalls;
    assert es[..i + 1][..i] == es[..i];
  }

  lemma {:induction false} MoreElements(es: seq<Element>, k: int, sel: Selector, ext: (int, string) -> Answer)
      returns (rest: seq<Call>)
    requires 0 <= k <= |es|
    ensures ListCalls(es, sel, ext) == ListCalls(es[..k], sel, ext) + rest
  {
    hide ListenerCalls, Selected;
    if k == |es| {
      assert es[..k] == es;
      rest := [];
    } else {
      var e := es[|es| - 1];
      rest := MoreElements(es[..|es| - 1], k, sel, ext);
      assert es[..|es| - 1][..k] == es[..k];
      rest := rest + if Selected(e, sel) then ListenerCalls(e, e.listeners, ext) else [];
    }
  }

  lemma NoNames(ls: Lists, ext: (int, string) -> Answer)
    ensures AllCalls(ls, [], ext) == []
  {
  }

  lemma NextName(ls: Lists, elements: seq<string>, i: int, ext: (int, string) -> Answer)
    requires 0 <= i < |elements|
    ensures AllCalls(ls, elements[..i + 1], ext)
      == AllCalls(ls, elements[..i], ext) + Calls(ls, SelectorOf(elements[i]), ext)
  {
    hide Calls;
    assert elements[..i + 1][..i] == elements[..i];
  }

  lemma {:induction false} MoreNames(ls: Lists, elements: seq<string>, k: int, ext: (int, string) -> Answer)
      returns (rest: seq<Call>)
    requires 0 <= k <= |elements|
    ensures AllCalls(ls, elements, ext) == AllCalls(ls, elements[..k], ext) + rest
  {
    hide Calls;
    if k == |elements| {
      assert elements[..k] == elements;
      rest := [];
    } else {
      rest := MoreNames(ls, elements[..|elements| - 1], k, ext);
      assert elements[..|elements| - 1][..k] == elements[..k];
      rest := rest + Calls(ls, SelectorOf(elements[|elements| - 1]), ext);
    }
  }
}
