/** Which namespaces a request or a pair reaches, said in the characters of their names. */
module LabelNames {
  import opened LabelText

  /** A name written without the mark of an optional namespace, and an element that bears it. */
  predicate Bare(n: string) { n == "" || n[0] != '?' }

  predicate Named(e: Element, n: string) { e.name == n || e.name == "?" + n }

  /** The calls of the hooks of an element, printed under the name `n`. */
  function HookCalls(n: string, e: Element, ls: seq<int>, ext: (int, string) -> Answer): seq<Call> {
    if ls == [] then []
    else
      HookCalls(n, e, ls[..|ls| - 1], ext) +
      match ext(ls[|ls| - 1], e.name)
      case Absent => []
      case Appends(data, error) => [Call(n, data, error)]
  }

  function NamedCalls(es: seq<Element>, n: string, ext: (int, string) -> Answer): seq<Call> {
    if es == [] then []
    else
      var e := es[|es| - 1];
      NamedCalls(es[..|es| - 1], n, ext) + if Named(e, n) then HookCalls(n, e, e.listeners, ext) else []
  }

  function BareCalls(es: seq<Element>, ext: (int, string) -> Answer): seq<Call> {
    if es == [] then []
    else
      var e := es[|es| - 1];
      BareCalls(es[..|es| - 1], ext) + if Bare(e.name) then HookCalls(e.name, e, e.listeners, ext) else []
  }

  function NamedListeners(es: seq<Element>, n: string): seq<int> {
    if es == [] then []
    else
      var e := es[|es| - 1];
      NamedListeners(es[..|es| - 1], n) + if Named(e, n) then e.listeners else []
  }

  lemma StripIff(name: string, n: string)
    requires Bare(n)
    ensures Strip(name) == n <==> name == n || name == "?" + n
  {
    if name != "" && name[0] == '?' {
      assert name == "?" + name[1..];
      assert ("?" + n)[1..] == n;
    }
  }

  lemma SelectorIs(n: string)
    requires Bare(n) && n != "*"
    ensures SelectorOf(n) == Only(n) && SelectorOf("?" + n) == Only(n) && SelectorOf("*") == All
  {
    assert ("?" + n)[1..] == n;
  }

  lemma {:induction false} PrintedAs(e: Element, ls: seq<int>, n: string, ext: (int, string) -> Answer)
    requires Strip(e.name) == n
    ensures ListenerCalls(e, ls, ext) == HookCalls(n, e, ls, ext)
  {
    hide Strip;
    if ls == [] {
    } else {
      PrintedAs(e, ls[..|ls| - 1], n, ext);
    }
  }

  /** A request for a namespace, optional or not, asks the listeners of the elements with that name, with
      or without the mark, and prints them without it. */
  lemma {:induction false} RequestCalls(es: seq<Element>, n: string, ext: (int, string) -> Answer)
    requires Bare(n) && n != "*"
    ensures ListCalls(es, SelectorOf(n), ext) == NamedCalls(es, n, ext)
    ensures ListCalls(es, SelectorOf("?" + n), ext) == NamedCalls(es, n, ext)
  {
    hide Strip, ListenerCalls, HookCalls;
    SelectorIs(n);
    if es == [] {
    } else {
      var e := es[|es| - 1];
      RequestCalls(es[..|es| - 1], n, ext);
      StripIff(e.name, n);
      if Named(e, n) {
        PrintedAs(e, e.listeners, n, ext);
      }
    }
  }

  /** A request for all namespaces passes over the optional ones. */
  lemma {:induction false} StarCalls(es: seq<Element>, ext: (int, string) -> Answer)
    ensures ListCalls(es, SelectorOf("*"), ext) == BareCalls(es, ext)
  {
    hide ListenerCalls, HookCalls;
    if es == [] {
    } else {
      var e := es[|es| - 1];
      StarCalls(es[..|es| - 1], ext);
      if Bare(e.name) {
        PrintedAs(e, e.listeners, e.name, ext);
      }
    }
  }

  /** A pair is handed to the listeners of the elements with its name, with or without the mark. */
  lemma {:induction false} PairListeners(es: seq<Element>, n: string)
    requires Bare(n)
    ensures Asked(es, n) == NamedListeners(es, n)
  {
    hide Strip;
    if es == [] {
    } else {
      PairListeners(es[..|es| - 1], n);
      StripIff(es[|es| - 1].name, n);
    }
  }

  /** Only a namespace asked for without the mark, and not by the star, can be missing. */
  lemma MissingIff(ls: Lists, n: string, ext: (int, string) -> Answer)
    requires Bare(n) && n != "*"
    ensures Missing(ls, n, ext) <==> EntriesOf(NamedCalls(ls.fixed, n, ext) + NamedCalls(ls.dynamic, n, ext)) == []
    ensures !Missing(ls, "?" + n, ext) && !Missing(ls, "*", ext)
  {
    RequestCalls(ls.fixed, n, ext);
    RequestCalls(ls.dynamic, n, ext);
  }

  /** The error of a pair is that of the first policy that objects to it. */
  lemma {:induction false} FirstErrorIs(hs: seq<int>, i: int, p: Pair, errno: int,
                                        setter: (int, string, string) -> Reply)
    requires 0 <= i < |hs| && setter(hs[i], p.name, p.data) == Error(errno) && errno != 0
    requires forall j :: 0 <= j < i ==> Content(hs[j], p, setter)
    ensures FirstError(hs, p, setter) == errno
  {
    var n := |hs| - 1;
    if i == n {
      NoErrors(hs[..n], p, setter);
    } else {
      FirstErrorIs(hs[..n], i, p, errno, setter);
    }
  }

  predicate Content(h: int, p: Pair, setter: (int, string, string) -> Reply) {
    setter(h, p.name, p.data) in {NoHook, Error(0)}
  }

  lemma {:induction false} NoErrors(hs: seq<int>, p: Pair, setter: (int, string, string) -> Reply)
    requires forall j :: 0 <= j < |hs| ==> Content(hs[j], p, setter)
    ensures FirstError(hs, p, setter) == 0
  {
    if hs == [] {
    } else {
      NoErrors(hs[..|hs| - 1], p, setter);
      assert Content(hs[|hs| - 1], p, setter);
    }
  }

  predicate Silent(h: int, p: Pair, setter: (int, string, string) -> Reply) {
    setter(h, p.name, p.data) == NoHook
  }

  /** A pair that no policy has a hook for is refused. */
  lemma Unheard(ls: Lists, p: Pair, setter: (int, string, string) -> Reply)
    requires Bare(p.name)
    requires forall h :: h in NamedListeners(ls.fixed, p.name) ==> Silent(h, p, setter)
    requires forall h :: h in NamedListeners(ls.dynamic, p.name) ==> Silent(h, p, setter)
    ensures Verdict(ls, p, setter) == 103
  {
    PairListeners(ls.fixed, p.name);
    PairListeners(ls.dynamic, p.name);
    NobodyObjects(Asked(ls.fixed, p.name) + Asked(ls.dynamic, p.name), p, setter);
  }

  lemma {:induction false} NobodyObjects(hs: seq<int>, p: Pair, setter: (int, string, string) -> Reply)
    requires forall h :: h in hs ==> Silent(h, p, setter)
    ensures FirstError(hs, p, setter) == 0 && !Heard(hs, p, setter)
  {
    if hs == [] {
    } else {
      NobodyObjects(hs[..|hs| - 1], p, setter);
      var h := hs[|hs| - 1];
      assert h in hs && Silent(h, p, setter);
      HeardBoth(hs[..|hs| - 1], [h], p, setter);
      assert hs == hs[..|hs| - 1] + [h];
    }
  }

  /** The dynamic namespaces are asked as if they followed the fixed ones in one list. */
  lemma {:induction false} OneList(a: seq<Element>, b: seq<Element>, sel: Selector, ext: (int, string) -> Answer)
    ensures Calls(Lists(a, b), sel, ext) == ListCalls(a + b, sel, ext)
  {
    hide ListenerCalls, Selected;
    if b == [] {
      assert a + b == a;
    } else {
      OneList(a, b[..|b| - 1], sel, ext);
      assert (a + b)[..|a + b| - 1] == a + b[..|b| - 1];
    }
  }

  lemma {:induction false} OneAsked(a: seq<Element>, b: seq<Element>, n: string)
    ensures Asked(a, n) + Asked(b, n) == Asked(a + b, n)
  {
    hide Strip;
    if b == [] {
      assert a + b == a;
    } else {
      OneAsked(a, b[..|b| - 1], n);
      assert (a + b)[..|a + b| - 1] == a + b[..|b| - 1];
    }
  }
}
