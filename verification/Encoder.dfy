/** The LZSS encoder's state: `init_state`, `insert_node` and `delete_node` on the flat arrays. */
module Encoder {
  import opened Bytes
  import opened LzssParams
  import opened SearchTrees

  class EncodeState {
    const lchild: array<int>
    const rchild: array<int>
    const parent: array<int>
    const textBuf: array<byte>
    var matchPosition: int
    var matchLength: int
    ghost var shape: Shape

    ghost function Cells(): Links
      reads lchild, rchild, parent
    {
      Links(lchild[..], rchild[..], parent[..])
    }

    ghost predicate Valid()
      reads this, lchild, rchild, parent, textBuf
    {
      && lchild != rchild && rchild != parent && lchild != parent
      && Wf(textBuf[..], Cells(), shape)
    }

    /** The nodes of tree `c` in lexicographic order. */
    ghost function Contents(c: int): seq<int>
      reads this, lchild, rchild, parent, textBuf
      requires Valid() && 0 <= c < 256
    {
      shape.order[c]
    }

    constructor ()
      ensures Valid() && fresh(lchild) && fresh(rchild) && fresh(parent) && fresh(textBuf)
      ensures forall c :: 0 <= c < 256 ==> Contents(c) == []
      ensures forall i :: 0 <= i < N - F ==> textBuf[i] == ' ' as int
    {
      lchild := new int[N + 1](_ => 0);
      rchild := new int[N + 257](_ => 0);
      parent := new int[N + 1](_ => 0);
      textBuf := new byte[N + F - 1](_ => 0);
      matchPosition, matchLength := 0, 0;
      shape := Shape(seq(256, _ => []), seq(N, _ => 0), seq(N, _ => 0), seq(N, _ => 0));
      new;
      hide Wf;
      for i := 0 to N - F
        modifies textBuf
        invariant forall j :: 0 <= j < i ==> textBuf[j] == ' ' as int
      {
        textBuf[i] := ' ' as int;
      }
      for i := N + 1 to N + 257
        modifies rchild
        invariant forall j :: N + 1 <= j < i ==> rchild[j] == NIL
      {
        rchild[i] := NIL;
      }
      for i := 0 to N
        modifies parent
        invariant forall j :: 0 <= j < i ==> parent[j] == NIL
      {
        parent[i] := NIL;
      }
      EmptyWf(textBuf[..], Cells(), shape);
    }

    /** Write a byte of text that belongs to the string of no node in a tree: every tree stays as it is. */
    method PutText(i: int, b: byte)
      requires Valid() && 0 <= i < textBuf.Length
      requires forall y :: Live(Cells(), y) ==> !(y <= i < y + F)
      modifies textBuf
      ensures Valid() && textBuf[..] == old(textBuf[..])[i := b]
      ensures Cells() == old(Cells()) && forall c :: 0 <= c < 256 ==> Contents(c) == old(Contents(c))
    {
      hide Wf;
      PokeWf(textBuf[..], Cells(), shape, i, b);
      textBuf[i] := b;
      assert textBuf[..] == old(textBuf[..])[i := b];
    }

    /** Length of the common prefix of two strings with the same first byte, and how they compare. */
    method Compare(r: int, p: int) returns (i: int, cmp: int)
      requires textBuf.Length == N + F - 1 && 0 <= r < N && 0 <= p < N && textBuf[r] == textBuf[p]
      ensures i == Match(Key(textBuf[..], r), Key(textBuf[..], p))
      ensures cmp == 0 <==> i == F
      ensures cmp < 0 <==> Less(Key(textBuf[..], r), Key(textBuf[..], p))
      ensures cmp > 0 <==> Less(Key(textBuf[..], p), Key(textBuf[..], r))
    {
      i, cmp := 1, 0;
      ghost var u, v := Key(textBuf[..], r), Key(textBuf[..], p);
      assert u[0] == v[0];
      while i < F
        invariant 1 <= i <= F && cmp == 0
        invariant forall j :: 0 <= j < i ==> u[j] == v[j]
      {
        cmp := textBuf[r + i] as int - textBuf[p + i] as int;
        assert u[i] == textBuf[r + i] && v[i] == textBuf[p + i];
        if cmp != 0 { break; }
        i := i + 1;
      }
      MatchIs(u, v, i);
      MatchSymmetric(u, v);
    }
  
    /** The effect of an insertion on the listing of the tree of `r`. */
    ghost predicate Inserted(s: seq<int>, s': seq<int>, r: int, k: int)
      reads this
    {
      if matchLength < F then 0 <= k <= |s| && s' == InsertAt(s, k, r)
      else 0 <= k < |s| && s[k] == matchPosition && s' == s[k := r]
    }

    /** The descent of `insert_node`: it ends at a node with the same string (`cmp == 0`), or at
        a node or sentinel `p` with no child on the side of `r`. */
    method Descend(r: int, ghost f: Links, ghost g: Shape) returns (p: int, cmp: int, ghost k: int)
      requires lchild != rchild && rchild != parent && lchild != parent && textBuf.Length == N + F - 1
      requires Wf(textBuf[..], f, g) && 0 <= r < N && !Live(f, r)
      requires Cells() == f
      modifies this`matchPosition, this`matchLength
      ensures Longest(textBuf[..], g.order[textBuf[r]], r, matchPosition, matchLength)
      ensures cmp == 0 <==> matchLength == F
      ensures cmp == 0 ==> Live(f, p) && p == matchPosition
      ensures cmp != 0 ==> Slot(textBuf[..], f, g, textBuf[r], p, k, cmp > 0)
      ensures cmp != 0 ==> Fits(textBuf[..], g.order[textBuf[r]], r, k)
    {
      ghost var t := textBuf[..];
      cmp, p := 1, N + 1 + textBuf[r];
      matchLength := 0;
      ghost var b := |g.order[t[r]]|;
      k := 0;
      SearchStart(t, f, g, r, matchPosition);
      while true
        invariant cmp != 0 && Searching(t, f, g, r, p, cmp >= 0, k, b, matchPosition, matchLength)
        decreases b - k
      {
        ghost var right := cmp >= 0;
        var q := if cmp >= 0 then rchild[p] else lchild[p];
        assert q == Child(f, p, right);
        if q == NIL {
          SearchEnd(t, f, g, r, p, right, k, b, matchPosition, matchLength);
          return;
        }
        ghost var right', a', b', mp', ml' := SearchStep(t, f, g, r, p, right, k, b, matchPosition, matchLength, q);
        p := q;
        var i;
        i, cmp := Compare(r, p);
        if i > matchLength {
          matchPosition := p;
          matchLength := i;
          if matchLength >= F {
            break;
          }
        }
        assert right' == (cmp >= 0);
        k, b := a', b';
      }
    }

    /** Two endings of `insert_node`: hang `r` below `p`, on the right or on the left. */
    method HangBelow(p: int, r: int, right: bool, ghost k: int)
      requires Valid() && 0 <= r < N && parent[r] == NIL && lchild[r] == NIL && rchild[r] == NIL
      requires Slot(textBuf[..], Cells(), shape, textBuf[r], p, k, right)
      requires Fits(textBuf[..], shape.order[textBuf[r]], r, k)
      modifies this`shape, lchild, rchild, parent
      ensures Valid() && shape.order == old(shape.order[textBuf[r] := InsertAt(shape.order[textBuf[r]], k, r)])
      ensures SameOutside(textBuf[..], old(Cells()), Cells(), textBuf[r])
    {
      hide NodeOk, TreeOk;
      ghost var f := Cells();
      HangWf(textBuf[..], f, shape, p, r, k, right);
      if right {
        rchild[p] := r;
      } else {
        lchild[p] := r;
      }
      parent[r] := p;
      shape := HangShape(textBuf[..], shape, r, k, right);
      assert Cells() == Hang(f, p, r, right);
    }

    /** The third ending: `r` takes over from `p`, which has the same string. */
    method TakeOver(p: int, r: int)
      requires lchild != rchild && rchild != parent && lchild != parent
      requires CanReplace(Cells(), p, r)
      modifies lchild, rchild, parent
      ensures Cells() == Replace(old(Cells()), p, r)
    {
      parent[r] := parent[p];
      lchild[r] := lchild[p];
      rchild[r] := rchild[p];
      parent[lchild[p]] := r;
      parent[rchild[p]] := r;
      if rchild[parent[p]] == p {
        rchild[parent[p]] := r;
      } else {
        lchild[parent[p]] := r;
      }
      parent[p] := NIL;
    }

    method Supersede(p: int, r: int) returns (ghost k: int)
      requires Valid() && 0 <= r < N && parent[r] == NIL && Live(Cells(), p)
      requires Match(Key(textBuf[..], p), Key(textBuf[..], r)) == F
      modifies this`shape, lchild, rchild, parent
      ensures Valid() && textBuf[p] == textBuf[r]
      ensures 0 <= k < |old(shape.order[textBuf[r]])| && old(shape.order[textBuf[r]])[k] == p
      ensures shape.order == old(shape.order)[textBuf[r] := old(shape.order[textBuf[r]])[k := r]]
      ensures SameOutside(textBuf[..], old(Cells()), Cells(), textBuf[r])
    {
      ghost var t, g := textBuf[..], shape;
      EqualKeys(t, Cells(), g, p, r);
      TakeOver(p, r);
      k, shape := g.pos[p], ReplaceShape(t, g, p, r);
    }

    /** Empty the child cells of a node that is in no tree. */
    method ClearChildren(r: int)
      requires Valid() && 0 <= r < N && parent[r] == NIL
      modifies lchild, rchild
      ensures Valid() && lchild[r] == NIL && rchild[r] == NIL
      ensures SameOutside(textBuf[..], old(Cells()), Cells(), textBuf[r])
    {
      ghost var f := Cells();
      rchild[r] := NIL;
      lchild[r] := NIL;
      SameLiveWf(textBuf[..], f, Cells(), shape);
    }

    method InsertNode(r: int) returns (ghost k: int)
      requires Valid() && 0 <= r < N && parent[r] == NIL
      modifies this`matchPosition, this`matchLength, this`shape, lchild, rchild, parent
      ensures Valid()
      ensures Longest(textBuf[..], old(Contents(textBuf[r])), r, matchPosition, matchLength)
      ensures Inserted(old(Contents(textBuf[r])), Contents(textBuf[r]), r, k)
      ensures forall d :: 0 <= d < 256 && d != textBuf[r] ==> Contents(d) == old(Contents(d))
      ensures SameOutside(textBuf[..], old(Cells()), Cells(), textBuf[r])
    {
      ClearChildren(r);
      var p, cmp;
      p, cmp, k := Descend(r, Cells(), shape);
      if cmp != 0 {
        HangBelow(p, r, cmp > 0, k);
      } else {
        k := Supersede(p, r);
      }
    }

    /** The node just before `p` in the listing, for `p` with a left child: go left, then right
        as far as possible. */
    method Predecessor(p: int) returns (q: int)
      requires Valid() && Live(Cells(), p) && lchild[p] != NIL
      ensures Precedes(textBuf[..], Cells(), shape, p, q)
    {
      ghost var t, f, g := textBuf[..], Cells(), shape;
      q := lchild[p];
      assert NodeOk(t, f, g, p) && NodeOk(t, f, g, q);
      while rchild[q] != NIL
        invariant Live(f, q) && NodeOk(t, f, g, q) && t[q] == t[p] && g.hi[q] == g.pos[p]
        decreases g.pos[p] - g.lo[q]
      {
        q := rchild[q];
        assert Live(f, q) && NodeOk(t, f, g, q);
      }
    }

    /** The tail of `delete_node`: `q` gets the parent of `p`, and `p` leaves the tree. */
    method Unlink(p: int, q: int)
      requires lchild != rchild && rchild != parent && lchild != parent
      requires lchild.Length == N + 1 && rchild.Length == N + 257 && parent.Length == N + 1
      requires 0 <= p < N && 0 <= q <= N && p != q && 0 <= parent[p] < N + 257
      requires rchild[parent[p]] == p || parent[p] < N
      modifies lchild, rchild, parent
      ensures Cells() == Cut(old(Cells()), p, q)
    {
      parent[q] := parent[p];
      if rchild[parent[p]] == p {
        rchild[parent[p]] := q;
      } else {
        lchild[parent[p]] := q;
      }
      parent[p] := NIL;
    }

    /** `delete_node` for a node with two children, once the node `q` before it is known. */
    method Substitute(p: int, q: int)
      requires lchild != rchild && rchild != parent && lchild != parent
      requires CanDeleteBoth(Cells(), p, q)
      modifies lchild, rchild, parent
      ensures Cells() == DeleteBoth(old(Cells()), p, q)
    {
      if q != lchild[p] {
        rchild[parent[q]] := lchild[q];
        parent[lchild[q]] := parent[q];
        lchild[q] := lchild[p];
        parent[lchild[p]] := q;
      }
      rchild[q] := rchild[p];
      parent[rchild[p]] := q;
      Unlink(p, q);
    }

    /** `delete_node` for a node with at most one child. */
    method DeleteThin(p: int)
      requires Valid() && Live(Cells(), p) && (lchild[p] == NIL || rchild[p] == NIL)
      modifies this`shape, lchild, rchild, parent
      ensures Valid() && parent[p] == NIL && old(Placed(textBuf[..], shape, p))
      ensures shape.order == old(shape.order[textBuf[p] := RemoveAt(shape.order[textBuf[p]], shape.pos[p])])
      ensures SameOutside(textBuf[..], old(Cells()), Cells(), textBuf[p])
    {
      ghost var t, f, g := textBuf[..], Cells(), shape;
      assert NodeOk(t, f, g, p);
      var q := if rchild[p] == NIL then lchild[p] else rchild[p];
      CutWf(t, f, g, p, q);
      Unlink(p, q);
      shape := CutShape(t, g, p);
    }

    /** `delete_node` for a node with two children. */
    method DeleteThick(p: int)
      requires Valid() && Live(Cells(), p) && lchild[p] != NIL && rchild[p] != NIL
      modifies this`shape, lchild, rchild, parent
      ensures Valid() && parent[p] == NIL && old(Placed(textBuf[..], shape, p))
      ensures shape.order == old(shape.order[textBuf[p] := RemoveAt(shape.order[textBuf[p]], shape.pos[p])])
      ensures SameOutside(textBuf[..], old(Cells()), Cells(), textBuf[p])
    {
      ghost var t, f, g := textBuf[..], Cells(), shape;
      var q := Predecessor(p);
      ghost var g' := DeleteBothWf(t, f, g, p, q);
      assert NodeOk(t, f, g, q);
      DeleteBothOutside(t, f, g, p, q);
      Substitute(p, q);
      shape := g';
    }

    method DeleteNode(p: int) returns (ghost k: int)
      requires Valid() && 0 <= p < N
      modifies this`shape, lchild, rchild, parent
      ensures Valid() && parent[p] == NIL
      ensures old(parent[p]) == NIL ==> shape == old(shape) && Cells() == old(Cells())
      ensures old(parent[p]) != NIL ==>
        && 0 <= k < |old(Contents(textBuf[p]))| && old(Contents(textBuf[p]))[k] == p
        && Contents(textBuf[p]) == RemoveAt(old(Contents(textBuf[p])), k)
      ensures forall d :: 0 <= d < 256 && d != textBuf[p] ==> Contents(d) == old(Contents(d))
      ensures SameOutside(textBuf[..], old(Cells()), Cells(), textBuf[p])
    {
      k := shape.pos[p];
      if parent[p] == NIL {
        return;
      }
      if rchild[p] == NIL || lchild[p] == NIL {
        DeleteThin(p);
      } else {
        DeleteThick(p);
      }
    }
  }
}
