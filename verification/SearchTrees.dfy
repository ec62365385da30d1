/** The 256 binary search trees of the LZSS encoder, as values.

  The encoder keeps its trees in three flat arrays.  `Links` is a snapshot of those arrays.
  `Shape` is the ghost view that explains them: for each first byte `c` the in-order listing
  `order[c]` of the nodes of tree `c`, and for each live node its index `pos` in that listing and
  the interval `lo..hi` of indices its subtree covers.  Well-formedness is then a local condition
  on each node, so no recursion over the links is needed.
 */
module SearchTrees {
  import opened Bytes
  import opened LzssParams

  const NIL := N

  datatype Links = Links(l: seq<int>, r: seq<int>, p: seq<int>)
  datatype Shape = Shape(order: seq<seq<int>>, pos: seq<int>, lo: seq<int>, hi: seq<int>)

  // ---------- Strings of F bytes and their order ----------

  ghost predicate IsText(t: seq<byte>) {
    |t| == N + F - 1
  }

  /** The F-byte string that node `y` stands for. */
  function Key(t: seq<byte>, y: int): (k: seq<byte>)
    requires |t| == N + F - 1 && 0 <= y < N
    ensures |k| == F
  {
    t[y..y + F]
  }

  /** Length of the longest common prefix of `u` and `v`, known to agree before `i`. */
  function MatchFrom(u: seq<byte>, v: seq<byte>, i: nat): (n: nat)
    requires |u| == |v| && i <= |u|
    ensures i <= n <= |u|
    ensures forall j :: i <= j < n ==> u[j] == v[j]
    ensures n < |u| ==> u[n] != v[n]
    decreases |u| - i
  {
    if i < |u| && u[i] == v[i] then MatchFrom(u, v, i + 1) else i
  }

  function Match(u: seq<byte>, v: seq<byte>): (n: nat)
    requires |u| == |v|
    ensures n <= |u|
  {
    MatchFrom(u, v, 0)
  }

  /** Strict lexicographic order. */
  predicate Less(u: seq<byte>, v: seq<byte>)
    requires |u| == |v|
  {
    var n := Match(u, v);
    n < |u| && u[n] < v[n]
  }

  /** The first byte in which two strings differ decides. */
  lemma LessIff(u: seq<byte>, v: seq<byte>)
    requires |u| == |v|
    ensures Less(u, v) <==> exists k :: 0 <= k < |u| && u[..k] == v[..k] && u[k] < v[k]
  {
    var n := Match(u, v);
    if Less(u, v) {
      assert u[..n] == v[..n];
    }
    forall k | 0 <= k < |u| && u[..k] == v[..k] && u[k] < v[k] ensures k == n {
      MatchIs(u, v, k);
    }
  }

  lemma MatchIs(u: seq<byte>, v: seq<byte>, n: nat)
    requires |u| == |v| && n <= |u|
    requires forall j :: 0 <= j < n ==> u[j] == v[j]
    requires n < |u| ==> u[n] != v[n]
    ensures Match(u, v) == n
  {
  }

  lemma MatchSymmetric(u: seq<byte>, v: seq<byte>)
    requires |u| == |v|
    ensures Match(u, v) == Match(v, u)
    ensures Less(u, v) ==> !Less(v, u)
    ensures Match(u, v) < |u| ==> Less(u, v) || Less(v, u)
    ensures Match(u, v) == |u| ==> u == v
  {
    MatchIs(v, u, Match(u, v));
  }

  /** The order is transitive, and a string further away never matches better. */
  lemma LessChain(u: seq<byte>, v: seq<byte>, w: seq<byte>)
    requires |u| == |v| == |w|
    requires Less(u, v) && Less(v, w)
    ensures Less(u, w)
    ensures Match(u, w) <= Match(u, v) && Match(u, w) <= Match(v, w)
  {
    var m, n := Match(u, v), Match(v, w);
    MatchIs(u, w, if m < n then m else n);
  }

  ghost predicate Nodes(s: seq<int>) {
    forall i :: 0 <= i < |s| ==> 0 <= s[i] < N
  }

  ghost predicate Sorted(t: seq<byte>, s: seq<int>)
    requires IsText(t)
  {
    && Nodes(s)
    && forall i, j :: 0 <= i < j < |s| ==> Less(Key(t, s[i]), Key(t, s[j]))
  }

  // ---------- Well-formed links ----------

  ghost predicate ShapeDims(t: seq<byte>, g: Shape) {
    IsText(t) && |g.order| == 256 && |g.pos| == N && |g.lo| == N && |g.hi| == N
  }

  ghost predicate Dims(t: seq<byte>, f: Links, g: Shape) {
    ShapeDims(t, g) && |f.l| == N + 1 && |f.r| == N + 257 && |f.p| == N + 1
  }

  /** Node `y` is in a tree.  The source marks a node outside every tree by a NIL parent. */
  predicate Live(f: Links, y: int)
    requires |f.p| == N + 1
  {
    0 <= y < N && f.p[y] != NIL
  }

  /** `z` hangs below `x` in tree `c` and its subtree covers exactly `a..b`; NIL covers nothing. */
  ghost predicate Hangs(t: seq<byte>, f: Links, g: Shape, c: int, z: int, x: int, a: int, b: int)
    requires Dims(t, f, g)
  {
    if z == NIL then a == b
    else 0 <= z < N && f.p[z] == x && t[z] == c && g.lo[z] == a && g.hi[z] == b
  }

  /** The numbers of `y` agree with the listing of its tree. */
  ghost predicate Placed(t: seq<byte>, g: Shape, y: int)
    requires ShapeDims(t, g) && 0 <= y < N
  {
    && 0 <= g.lo[y] <= g.pos[y] < g.hi[y] <= |g.order[t[y]]|
    && g.order[t[y]][g.pos[y]] == y
  }

  /** The parent of `y` is the sentinel or a live node of tree `c`, and one of its edges leads back. */
  ghost predicate HasParent(t: seq<byte>, f: Links, c: int, y: int)
    requires IsText(t) && |f.l| == N + 1 && |f.r| == N + 257 && |f.p| == N + 1 && 0 <= y < N && 0 <= c < 256
  {
    var x := f.p[y];
    && (x == N + 1 + c || (0 <= x < N && f.p[x] != NIL && t[x] == c))
    && (f.r[x] == y || (x < N && f.l[x] == y))
  }

  ghost predicate NodeOk(t: seq<byte>, f: Links, g: Shape, y: int)
    requires Dims(t, f, g) && 0 <= y < N
  {
    var c := t[y];
    && Placed(t, g, y)
    && HasParent(t, f, c, y)
    && Hangs(t, f, g, c, f.l[y], y, g.lo[y], g.pos[y])
    && Hangs(t, f, g, c, f.r[y], y, g.pos[y] + 1, g.hi[y])
  }

  ghost predicate Listed(t: seq<byte>, f: Links, g: Shape, c: int)
    requires Dims(t, f, g) && 0 <= c < 256
  {
    forall k :: 0 <= k < |g.order[c]| ==>
      var y := g.order[c][k];
      0 <= y < N && t[y] == c && f.p[y] != NIL && g.pos[y] == k
  }

  ghost predicate TreeOk(t: seq<byte>, f: Links, g: Shape, c: int)
    requires Dims(t, f, g) && 0 <= c < 256
  {
    && Listed(t, f, g, c)
    && Sorted(t, g.order[c])
    && Hangs(t, f, g, c, f.r[N + 1 + c], N + 1 + c, 0, |g.order[c]|)
  }

  ghost predicate Wf(t: seq<byte>, f: Links, g: Shape) {
    && Dims(t, f, g)
    && (forall y {:trigger NodeOk(t, f, g, y)} :: Live(f, y) ==> NodeOk(t, f, g, y))
    && (forall c :: 0 <= c < 256 ==> TreeOk(t, f, g, c))
  }

  /** `init_state`: no live node, every tree empty. */
  lemma EmptyWf(t: seq<byte>, f: Links, g: Shape)
    requires Dims(t, f, g) && (forall y :: 0 <= y < N ==> f.p[y] == NIL)
    requires forall c :: 0 <= c < 256 ==> f.r[N + 1 + c] == NIL && g.order[c] == []
    ensures Wf(t, f, g)
  {
    forall c | 0 <= c < 256 ensures TreeOk(t, f, g, c) {
      assert g.order[c] == [];
    }
  }

  // ---------- Hanging a new leaf ----------

  function Up(v: int, k: int): int { if v >= k then v + 1 else v }

  /** Node `r` gets number `v`; the numbers of tree `c` from `k` on move up by one. */
  ghost function ShiftUp(t: seq<byte>, c: int, s: seq<int>, k: int, r: int, v: int): (s': seq<int>)
    requires IsText(t) && |s| == N && 0 <= r < N
    ensures |s'| == N && s'[r] == v
    ensures forall y :: 0 <= y < N && y != r ==> s'[y] == if t[y] == c then Up(s[y], k) else s[y]
  {
    seq(N, y requires 0 <= y < N => if y == r then v else if t[y] == c then Up(s[y], k) else s[y])
  }

  function InsertAt(s: seq<int>, k: int, r: int): (s': seq<int>)
    requires 0 <= k <= |s|
    ensures |s'| == |s| + 1 && s'[k] == r
    ensures forall i :: 0 <= i < k ==> s'[i] == s[i]
    ensures forall i :: k <= i < |s| ==> s'[i + 1] == s[i]
  {
    s[..k] + [r] + s[k..]
  }

  function RemoveAt(s: seq<int>, k: int): (s': seq<int>)
    requires 0 <= k < |s|
    ensures |s'| == |s| - 1
    ensures forall i :: 0 <= i < k ==> s'[i] == s[i]
    ensures forall i :: k <= i < |s| - 1 ==> s'[i] == s[i + 1]
  {
    s[..k] + s[k + 1..]
  }

  /** The links after the new leaf `r` became the right or the left child of `x`. */
  function Hang(f: Links, x: int, r: int, right: bool): Links
    requires |f.l| == N + 1 && |f.r| == N + 257 && |f.p| == N + 1
    requires 0 <= r < N && 0 <= x < N + 257 && (right || x < N)
  {
    if right then Links(f.l[r := NIL], f.r[r := NIL][x := r], f.p[r := x])
    else Links(f.l[r := NIL][x := r], f.r[r := NIL], f.p[r := x])
  }

  /** A leaf hung on the right at index `k` lengthens the intervals that end at `k`, a leaf hung on
      the left those that begin there. */
  ghost function HangShape(t: seq<byte>, g: Shape, r: int, k: int, right: bool): Shape
    requires ShapeDims(t, g) && 0 <= r < N && 0 <= k <= |g.order[t[r]]|
  {
    var c, u := t[r], if right then k else k + 1;
    Shape(g.order[c := InsertAt(g.order[c], k, r)], ShiftUp(t, c, g.pos, k, r, k),
          ShiftUp(t, c, g.lo, u, r, k), ShiftUp(t, c, g.hi, u, r, k + 1))
  }

  /** `x` is the sentinel or a node of tree `c`, has no child on that side, and the gap is index `k`. */
  ghost predicate Slot(t: seq<byte>, f: Links, g: Shape, c: int, x: int, k: int, right: bool)
    requires Dims(t, f, g) && 0 <= c < 256
  {
    || (right && x == N + 1 + c && f.r[x] == NIL && k == 0)
    || (right && Live(f, x) && t[x] == c && f.r[x] == NIL && k == g.pos[x] + 1)
    || (!right && Live(f, x) && t[x] == c && f.l[x] == NIL && k == g.pos[x])
  }

  /** Key `r` belongs at index `k` of the listing `s`. */
  ghost predicate Fits(t: seq<byte>, s: seq<int>, r: int, k: int)
    requires IsText(t) && 0 <= r < N
  {
    && Nodes(s) && 0 <= k <= |s|
    && (forall j :: 0 <= j < k ==> Less(Key(t, s[j]), Key(t, r)))
    && (forall j :: k <= j < |s| ==> Less(Key(t, r), Key(t, s[j])))
  }

  lemma HangEdge(t: seq<byte>, f: Links, g: Shape, x: int, r: int, k: int, right: bool, z: int, y: int, a: int, b: int)
    requires Dims(t, f, g) && 0 <= r < N && !Live(f, r) && 0 <= k <= |g.order[t[r]]|
    requires Slot(t, f, g, t[r], x, k, right) && 0 <= y < N && Hangs(t, f, g, t[y], z, y, a, b)
    ensures Dims(t, Hang(f, x, r, right), HangShape(t, g, r, k, right))
    ensures var u := if right then k else k + 1; var same := t[y] == t[r];
      Hangs(t, Hang(f, x, r, right), HangShape(t, g, r, k, right), t[y], z, y,
            if same then Up(a, u) else a, if same then Up(b, u) else b)
  {
  }

  lemma HangPlaced(t: seq<byte>, g: Shape, r: int, k: int, right: bool, y: int)
    requires ShapeDims(t, g) && 0 <= r < N && 0 <= k <= |g.order[t[r]]|
    requires 0 <= y < N && y != r && Placed(t, g, y)
    ensures Placed(t, HangShape(t, g, r, k, right), y)
  {
  }

  lemma HangParent(t: seq<byte>, f: Links, g: Shape, x: int, r: int, k: int, right: bool, y: int)
    requires Dims(t, f, g) && 0 <= r < N && !Live(f, r)
    requires Slot(t, f, g, t[r], x, k, right) && Live(f, y) && HasParent(t, f, t[y], y)
    ensures HasParent(t, Hang(f, x, r, right), t[y], y) && HasParent(t, Hang(f, x, r, right), t[r], r)
  {
  }

  /** The node above the new leaf. */
  lemma HangAbove(t: seq<byte>, f: Links, g: Shape, x: int, r: int, k: int, right: bool)
    requires Dims(t, f, g) && 0 <= r < N && !Live(f, r) && 0 <= k <= |g.order[t[r]]|
    requires Slot(t, f, g, t[r], x, k, right) && x < N && NodeOk(t, f, g, x)
    ensures Dims(t, Hang(f, x, r, right), HangShape(t, g, r, k, right))
    ensures NodeOk(t, Hang(f, x, r, right), HangShape(t, g, r, k, right), x)
  {
    hide Placed, HasParent;
    HangPlaced(t, g, r, k, right, x);
    HangParent(t, f, g, x, r, k, right, x);
    assert 0 <= g.pos[x] by { assert Placed(t, g, x); }
  }

  /** The cells and numbers of a node away from the new leaf. */
  lemma HangAway(t: seq<byte>, f: Links, g: Shape, x: int, r: int, k: int, right: bool, y: int)
    requires Dims(t, f, g) && 0 <= r < N && !Live(f, r) && 0 <= k <= |g.order[t[r]]|
    requires Slot(t, f, g, t[r], x, k, right) && Live(f, y) && y != x
    ensures Dims(t, Hang(f, x, r, right), HangShape(t, g, r, k, right))
    ensures Hang(f, x, r, right).l[y] == f.l[y] && Hang(f, x, r, right).r[y] == f.r[y]
    ensures var g', u := HangShape(t, g, r, k, right), if right then k else k + 1;
      if t[y] == t[r] then g'.pos[y] == Up(g.pos[y], k) && g'.lo[y] == Up(g.lo[y], u) && g'.hi[y] == Up(g.hi[y], u)
      else g'.pos[y] == g.pos[y] && g'.lo[y] == g.lo[y] && g'.hi[y] == g.hi[y]
  {
  }

  lemma HangNode(t: seq<byte>, f: Links, g: Shape, x: int, r: int, k: int, right: bool, y: int)
    requires Dims(t, f, g) && 0 <= r < N && !Live(f, r) && 0 <= k <= |g.order[t[r]]|
    requires Slot(t, f, g, t[r], x, k, right) && (x < N ==> Placed(t, g, x))
    requires Live(f, y) && y != x && NodeOk(t, f, g, y)
    ensures Dims(t, Hang(f, x, r, right), HangShape(t, g, r, k, right))
    ensures NodeOk(t, Hang(f, x, r, right), HangShape(t, g, r, k, right), y)
  {
    hide Hangs, HasParent, Hang, HangShape;
    HangAway(t, f, g, x, r, k, right, y);
    HangPlaced(t, g, r, k, right, y);
    HangParent(t, f, g, x, r, k, right, y);
    HangEdge(t, f, g, x, r, k, right, f.l[y], y, g.lo[y], g.pos[y]);
    HangEdge(t, f, g, x, r, k, right, f.r[y], y, g.pos[y] + 1, g.hi[y]);
    if t[y] == t[r] {
      assert 0 <= g.pos[y] && (x < N ==> g.pos[y] != g.pos[x]);
    }
  }

  lemma HangLeaf(t: seq<byte>, f: Links, g: Shape, x: int, r: int, k: int, right: bool)
    requires Dims(t, f, g) && 0 <= r < N && !Live(f, r) && 0 <= k <= |g.order[t[r]]|
    requires Slot(t, f, g, t[r], x, k, right)
    ensures Dims(t, Hang(f, x, r, right), HangShape(t, g, r, k, right))
    ensures NodeOk(t, Hang(f, x, r, right), HangShape(t, g, r, k, right), r)
  {
  }

  lemma InsertSorted(t: seq<byte>, s: seq<int>, r: int, k: int)
    requires IsText(t) && Sorted(t, s) && 0 <= r < N && Fits(t, s, r, k)
    ensures Sorted(t, InsertAt(s, k, r))
  {
    hide Less, Key;
    var s' := InsertAt(s, k, r);
    forall i | 0 <= i < |s'| ensures 0 <= s'[i] < N {
      assert i > k ==> s'[i] == s[i - 1];
    }
    forall i, j | 0 <= i < j < |s'| ensures Less(Key(t, s'[i]), Key(t, s'[j])) {
      assert i > k ==> s'[i] == s[i - 1];
      assert j > k ==> s'[j] == s[j - 1];
    }
  }

  lemma HangListed(t: seq<byte>, f: Links, g: Shape, x: int, r: int, k: int, right: bool, d: int)
    requires Dims(t, f, g) && 0 <= r < N && !Live(f, r) && 0 <= k <= |g.order[t[r]]|
    requires Slot(t, f, g, t[r], x, k, right) && 0 <= d < 256 && Listed(t, f, g, d)
    ensures Dims(t, Hang(f, x, r, right), HangShape(t, g, r, k, right))
    ensures Listed(t, Hang(f, x, r, right), HangShape(t, g, r, k, right), d)
  {
    var f', g' := Hang(f, x, r, right), HangShape(t, g, r, k, right);
    var s, s' := g.order[d], g'.order[d];
    forall i | 0 <= i < |s'|
      ensures 0 <= s'[i] < N && t[s'[i]] == d && f'.p[s'[i]] != NIL && g'.pos[s'[i]] == i
    {
      if d == t[r] && i > k {
        assert s'[i] == s[i - 1];
      }
    }
  }

  lemma HangTree(t: seq<byte>, f: Links, g: Shape, x: int, r: int, k: int, right: bool, d: int)
    requires Dims(t, f, g) && 0 <= r < N && !Live(f, r) && 0 <= k <= |g.order[t[r]]|
    requires Slot(t, f, g, t[r], x, k, right) && Fits(t, g.order[t[r]], r, k)
    requires 0 <= d < 256 && TreeOk(t, f, g, d) && (x < N ==> NodeOk(t, f, g, x))
    ensures Dims(t, Hang(f, x, r, right), HangShape(t, g, r, k, right))
    ensures TreeOk(t, Hang(f, x, r, right), HangShape(t, g, r, k, right), d)
  {
    hide Sorted, Listed, Fits;
    HangListed(t, f, g, x, r, k, right, d);
    if d == t[r] {
      assert 0 <= k <= |g.order[d]|;
      InsertSorted(t, g.order[d], r, k);
    }
  }

  lemma NodePlaced(t: seq<byte>, f: Links, g: Shape, x: int)
    requires Wf(t, f, g)
    ensures Live(f, x) ==> NodeOk(t, f, g, x) && Placed(t, g, x)
  {
    if Live(f, x) {
      assert NodeOk(t, f, g, x);
    }
  }

  /** A leaf hung in its place leaves well-formed trees, with `r` listed at index `k`. */
  lemma HangWf(t: seq<byte>, f: Links, g: Shape, x: int, r: int, k: int, right: bool)
    requires Wf(t, f, g) && 0 <= r < N && !Live(f, r) && 0 <= k <= |g.order[t[r]]|
    requires Slot(t, f, g, t[r], x, k, right) && Fits(t, g.order[t[r]], r, k)
    ensures Wf(t, Hang(f, x, r, right), HangShape(t, g, r, k, right))
  {
    hide NodeOk, TreeOk, Fits;
    var f', g' := Hang(f, x, r, right), HangShape(t, g, r, k, right);
    assert x < N ==> NodeOk(t, f, g, x) && Placed(t, g, x) by {
      NodePlaced(t, f, g, x);
    }
    forall y | Live(f', y) ensures NodeOk(t, f', g', y) {
      if y == r {
        HangLeaf(t, f, g, x, r, k, right);
      } else if y == x {
        HangAbove(t, f, g, x, r, k, right);
      } else {
        assert Live(f, y) && NodeOk(t, f, g, y);
        HangNode(t, f, g, x, r, k, right, y);
      }
    }
    forall d | 0 <= d < 256 ensures TreeOk(t, f', g', d) {
      assert TreeOk(t, f, g, d);
      HangTree(t, f, g, x, r, k, right, d);
    }
  }

  // ---------- Putting one node in the place of another ----------

  /** Let the edge of `x` that led to `p` lead to `q` instead. */
  function Redirect(f: Links, x: int, p: int, q: int): Links
    requires 0 <= x < |f.r| && (f.r[x] == p || x < |f.l|)
  {
    if f.r[x] == p then f.(r := f.r[x := q]) else f.(l := f.l[x := q])
  }

  predicate CanReplace(f: Links, p: int, q: int) {
    && |f.l| == N + 1 && |f.r| == N + 257 && |f.p| == N + 1
    && 0 <= p < N && 0 <= q < N && p != q
    && 0 <= f.l[p] <= N && 0 <= f.r[p] <= N && f.l[p] != p && f.r[p] != p
    && 0 <= f.p[p] < N + 257 && f.p[p] != q && f.p[p] != p
    && (f.r[f.p[p]] == p || f.p[p] < N)
  }

  /** The links after `q`, which was in no tree, took over the place of `p`. */
  function Replace(f: Links, p: int, q: int): Links
    requires CanReplace(f, p, q)
  {
    var g := Links(f.l[q := f.l[p]], f.r[q := f.r[p]],
                   f.p[q := f.p[p]][f.l[p] := q][f.r[p] := q]);
    Redirect(g, f.p[p], p, q).(p := g.p[p := NIL])
  }

  ghost function ReplaceShape(t: seq<byte>, g: Shape, p: int, q: int): Shape
    requires ShapeDims(t, g)
    requires 0 <= p < N && 0 <= q < N && 0 <= g.pos[p] < |g.order[t[p]]|
  {
    var c := t[p];
    Shape(g.order[c := g.order[c][g.pos[p] := q]],
          g.pos[q := g.pos[p]], g.lo[q := g.lo[p]], g.hi[q := g.hi[p]])
  }

  /** Every edge survives the replacement; the one that led to `p` now leads to `q`. */
  lemma ReplaceHangs(t: seq<byte>, f: Links, g: Shape, p: int, q: int, c: int, z: int, x: int, a: int, b: int)
    requires Dims(t, f, g) && Live(f, p) && NodeOk(t, f, g, p)
    requires 0 <= q < N && !Live(f, q) && t[q] == t[p] && CanReplace(f, p, q)
    requires x != p && x != q && x != NIL && Hangs(t, f, g, c, z, x, a, b)
    ensures Dims(t, Replace(f, p, q), ReplaceShape(t, g, p, q))
    ensures Hangs(t, Replace(f, p, q), ReplaceShape(t, g, p, q), c, if z == p then q else z, x, a, b)
  {
  }

  lemma ReplaceParent(t: seq<byte>, f: Links, g: Shape, p: int, q: int, y: int)
    requires Dims(t, f, g) && Live(f, p) && NodeOk(t, f, g, p)
    requires 0 <= q < N && !Live(f, q) && t[q] == t[p] && CanReplace(f, p, q)
    requires Live(f, y) && y != p && y != q && HasParent(t, f, t[y], y)
    ensures HasParent(t, Replace(f, p, q), t[y], y)
  {
  }

  lemma ReplaceNode(t: seq<byte>, f: Links, g: Shape, p: int, q: int, y: int)
    requires Dims(t, f, g) && Live(f, p) && NodeOk(t, f, g, p)
    requires 0 <= q < N && !Live(f, q) && t[q] == t[p] && CanReplace(f, p, q)
    requires Live(f, y) && y != p && y != q && NodeOk(t, f, g, y)
    ensures Dims(t, Replace(f, p, q), ReplaceShape(t, g, p, q))
    ensures NodeOk(t, Replace(f, p, q), ReplaceShape(t, g, p, q), y)
  {
    ReplaceParent(t, f, g, p, q, y);
    ReplaceHangs(t, f, g, p, q, t[y], f.l[y], y, g.lo[y], g.pos[y]);
    ReplaceHangs(t, f, g, p, q, t[y], f.r[y], y, g.pos[y] + 1, g.hi[y]);
  }

  lemma ReplaceSelf(t: seq<byte>, f: Links, g: Shape, p: int, q: int)
    requires Dims(t, f, g) && Live(f, p) && NodeOk(t, f, g, p)
    requires 0 <= q < N && !Live(f, q) && t[q] == t[p] && CanReplace(f, p, q)
    ensures Dims(t, Replace(f, p, q), ReplaceShape(t, g, p, q))
    ensures NodeOk(t, Replace(f, p, q), ReplaceShape(t, g, p, q), q)
  {
  }

  lemma ReplaceListed(t: seq<byte>, f: Links, g: Shape, p: int, q: int, d: int)
    requires Dims(t, f, g) && Live(f, p) && NodeOk(t, f, g, p)
    requires 0 <= q < N && !Live(f, q) && t[q] == t[p] && CanReplace(f, p, q)
    requires 0 <= d < 256 && Listed(t, f, g, d)
    ensures Dims(t, Replace(f, p, q), ReplaceShape(t, g, p, q))
    ensures Listed(t, Replace(f, p, q), ReplaceShape(t, g, p, q), d)
  {
  }

  lemma ReplaceTree(t: seq<byte>, f: Links, g: Shape, p: int, q: int, d: int)
    requires Dims(t, f, g) && Live(f, p) && NodeOk(t, f, g, p)
    requires 0 <= q < N && !Live(f, q) && t[q] == t[p] && CanReplace(f, p, q)
    requires 0 <= d < 256 && TreeOk(t, f, g, d) && Sorted(t, g.order[t[p]][g.pos[p] := q])
    ensures Dims(t, Replace(f, p, q), ReplaceShape(t, g, p, q))
    ensures TreeOk(t, Replace(f, p, q), ReplaceShape(t, g, p, q), d)
  {
    hide Sorted;
    ReplaceListed(t, f, g, p, q, d);
    if f.r[N + 1 + d] != NIL {
      ReplaceHangs(t, f, g, p, q, d, f.r[N + 1 + d], N + 1 + d, 0, |g.order[d]|);
    }
  }

  lemma ReplaceWf(t: seq<byte>, f: Links, g: Shape, p: int, q: int)
    requires Wf(t, f, g) && Live(f, p) && NodeOk(t, f, g, p)
    requires 0 <= q < N && !Live(f, q) && t[q] == t[p] && CanReplace(f, p, q)
    requires Sorted(t, g.order[t[p]][g.pos[p] := q])
    ensures Wf(t, Replace(f, p, q), ReplaceShape(t, g, p, q))
  {
    var f', g' := Replace(f, p, q), ReplaceShape(t, g, p, q);
    forall y | Live(f', y) ensures NodeOk(t, f', g', y) {
      if y == q {
        ReplaceSelf(t, f, g, p, q);
      } else {
        assert Live(f, y) && NodeOk(t, f, g, y);
        ReplaceNode(t, f, g, p, q, y);
      }
    }
    forall d | 0 <= d < 256 ensures TreeOk(t, f', g', d) {
      assert TreeOk(t, f, g, d);
      ReplaceTree(t, f, g, p, q, d);
    }
  }

  /** Swapping in a node with an equal string keeps the listing sorted. */
  lemma SwapSorted(t: seq<byte>, s: seq<int>, k: int, q: int)
    requires IsText(t) && Sorted(t, s) && 0 <= k < |s| && 0 <= q < N && Key(t, q) == Key(t, s[k])
    ensures Sorted(t, s[k := q])
  {
  }

  lemma EqualKeys(t: seq<byte>, f: Links, g: Shape, p: int, r: int)
    requires Wf(t, f, g) && Live(f, p) && 0 <= r < N && !Live(f, r)
    requires Match(Key(t, p), Key(t, r)) == F
    ensures NodeOk(t, f, g, p) && t[r] == t[p] && CanReplace(f, p, r)
    ensures Wf(t, Replace(f, p, r), ReplaceShape(t, g, p, r))
  {
    assert NodeOk(t, f, g, p) && TreeOk(t, f, g, t[p]);
    MatchSymmetric(Key(t, p), Key(t, r));
    assert Key(t, p)[0] == t[p] && Key(t, r)[0] == t[r];
    SwapSorted(t, g.order[t[p]], g.pos[p], r);
    ReplaceWf(t, f, g, p, r);
  }

  // ---------- Cutting out a node with at most one child ----------

  function Down(v: int, k: int): int { if v > k then v - 1 else v }

  ghost function ShiftDown(t: seq<byte>, c: int, s: seq<int>, k: int): (s': seq<int>)
    requires IsText(t) && |s| == N
    ensures |s'| == N
    ensures forall y :: 0 <= y < N ==> s'[y] == if t[y] == c then Down(s[y], k) else s[y]
  {
    seq(N, y requires 0 <= y < N => if t[y] == c then Down(s[y], k) else s[y])
  }

  /** The links after `p`, whose only child is `q` (or NIL), was cut out. */
  function Cut(f: Links, p: int, q: int): Links
    requires |f.l| == N + 1 && |f.r| == N + 257 && |f.p| == N + 1
    requires 0 <= p < N && 0 <= q <= N && p != q && 0 <= f.p[p] < N + 257
    requires f.r[f.p[p]] == p || f.p[p] < N
  {
    Redirect(f, f.p[p], p, q).(p := f.p[q := f.p[p]][p := NIL])
  }

  ghost function CutShape(t: seq<byte>, g: Shape, p: int): Shape
    requires ShapeDims(t, g)
    requires 0 <= p < N && 0 <= g.pos[p] < |g.order[t[p]]|
  {
    var c, k := t[p], g.pos[p];
    Shape(g.order[c := RemoveAt(g.order[c], k)],
          ShiftDown(t, c, g.pos, k), ShiftDown(t, c, g.lo, k), ShiftDown(t, c, g.hi, k))
  }

  /** `q` is the only child of `p`. */
  ghost predicate OnlyChild(f: Links, p: int, q: int)
    requires |f.l| == N + 1 && |f.r| == N + 257 && 0 <= p < N
  {
    (f.r[p] == NIL && q == f.l[p]) || (f.l[p] == NIL && q == f.r[p])
  }

  /** Every edge survives the cut; the one that led to `p` now leads to `q`. */
  lemma CutHangs(t: seq<byte>, f: Links, g: Shape, p: int, q: int, c: int, z: int, x: int, a: int, b: int)
    requires Dims(t, f, g) && Live(f, p) && NodeOk(t, f, g, p) && OnlyChild(f, p, q)
    requires x != p && Hangs(t, f, g, c, z, x, a, b)
    ensures Dims(t, Cut(f, p, q), CutShape(t, g, p))
    ensures var k, same := g.pos[p], c == t[p];
      Hangs(t, Cut(f, p, q), CutShape(t, g, p), c, if z == p then q else z, x,
            if same then Down(a, k) else a, if same then Down(b, k) else b)
  {
  }

  lemma CutPlaced(t: seq<byte>, g: Shape, p: int, y: int)
    requires ShapeDims(t, g)
    requires 0 <= p < N && 0 <= y < N && y != p && Placed(t, g, p) && Placed(t, g, y)
    ensures Placed(t, CutShape(t, g, p), y)
  {
    if t[y] == t[p] {
      assert g.pos[y] != g.pos[p];
    }
  }

  lemma CutParent(t: seq<byte>, f: Links, g: Shape, p: int, q: int, y: int)
    requires Dims(t, f, g) && Live(f, p) && NodeOk(t, f, g, p) && OnlyChild(f, p, q)
    requires Live(f, y) && y != p && HasParent(t, f, t[y], y)
    ensures Dims(t, Cut(f, p, q), CutShape(t, g, p))
    ensures HasParent(t, Cut(f, p, q), t[y], y)
  {
  }

  lemma CutLinks(t: seq<byte>, f: Links, g: Shape, p: int, q: int, y: int)
    requires Dims(t, f, g) && Live(f, p) && NodeOk(t, f, g, p) && OnlyChild(f, p, q)
    requires Live(f, y) && y != p && NodeOk(t, f, g, y)
    ensures Cut(f, p, q).l[y] == (if f.l[y] == p then q else f.l[y])
    ensures Cut(f, p, q).r[y] == (if f.r[y] == p then q else f.r[y])
  {
  }

  lemma CutNode(t: seq<byte>, f: Links, g: Shape, p: int, q: int, y: int)
    requires Dims(t, f, g) && Live(f, p) && NodeOk(t, f, g, p) && OnlyChild(f, p, q)
    requires Live(f, y) && y != p && NodeOk(t, f, g, y)
    ensures Dims(t, Cut(f, p, q), CutShape(t, g, p))
    ensures NodeOk(t, Cut(f, p, q), CutShape(t, g, p), y)
  {
    CutLinks(t, f, g, p, q, y);
    hide Hangs, HasParent;
    CutPlaced(t, g, p, y);
    CutParent(t, f, g, p, q, y);
    CutHangs(t, f, g, p, q, t[y], f.l[y], y, g.lo[y], g.pos[y]);
    CutHangs(t, f, g, p, q, t[y], f.r[y], y, g.pos[y] + 1, g.hi[y]);
    assert t[y] == t[p] ==> g.pos[y] != g.pos[p];
  }

  lemma RemoveSorted(t: seq<byte>, s: seq<int>, k: int)
    requires IsText(t) && Sorted(t, s) && 0 <= k < |s|
    ensures Sorted(t, RemoveAt(s, k))
  {
  }

  lemma CutListed(t: seq<byte>, f: Links, g: Shape, p: int, q: int, d: int)
    requires Dims(t, f, g) && Live(f, p) && NodeOk(t, f, g, p) && OnlyChild(f, p, q)
    requires 0 <= d < 256 && Listed(t, f, g, d)
    ensures Dims(t, Cut(f, p, q), CutShape(t, g, p))
    ensures Listed(t, Cut(f, p, q), CutShape(t, g, p), d)
  {
    var f', g' := Cut(f, p, q), CutShape(t, g, p);
    assert f.p[p] != p;
    var s, s', k := g.order[d], g'.order[d], g.pos[p];
    forall i | 0 <= i < |s'|
      ensures 0 <= s'[i] < N && t[s'[i]] == d && f'.p[s'[i]] != NIL && g'.pos[s'[i]] == i
    {
      var j := if d == t[p] && i >= k then i + 1 else i;
      assert s'[i] == s[j];
    }
  }

  lemma CutTree(t: seq<byte>, f: Links, g: Shape, p: int, q: int, d: int)
    requires Dims(t, f, g) && Live(f, p) && NodeOk(t, f, g, p) && OnlyChild(f, p, q)
    requires 0 <= d < 256 && TreeOk(t, f, g, d)
    ensures Dims(t, Cut(f, p, q), CutShape(t, g, p))
    ensures TreeOk(t, Cut(f, p, q), CutShape(t, g, p), d)
  {
    CutListed(t, f, g, p, q, d);
    if d == t[p] {
      RemoveSorted(t, g.order[d], g.pos[p]);
    }
  }

  lemma CutWf(t: seq<byte>, f: Links, g: Shape, p: int, q: int)
    requires Wf(t, f, g) && Live(f, p) && NodeOk(t, f, g, p) && OnlyChild(f, p, q)
    ensures Wf(t, Cut(f, p, q), CutShape(t, g, p))
  {
    var f', g' := Cut(f, p, q), CutShape(t, g, p);
    forall y | Live(f', y) ensures NodeOk(t, f', g', y) {
      assert NodeOk(t, f, g, y);
      CutNode(t, f, g, p, q, y);
    }
    forall d | 0 <= d < 256 ensures TreeOk(t, f', g', d) {
      assert TreeOk(t, f, g, d);
      CutTree(t, f, g, p, q, d);
    }
  }

  // ---------- Cells of dead nodes do not matter ----------

  /** `f'` and `f` have the same live nodes and agree on every cell of them and of the sentinels. */
  ghost predicate SameLive(f: Links, f': Links)
    requires |f.l| == |f'.l| == N + 1 && |f.r| == |f'.r| == N + 257 && |f.p| == |f'.p| == N + 1
  {
    && (forall y :: 0 <= y < N ==> f'.p[y] == f.p[y])
    && (forall y :: Live(f, y) ==> f'.l[y] == f.l[y] && f'.r[y] == f.r[y])
    && (forall x :: N < x < N + 257 ==> f'.r[x] == f.r[x])
  }

  lemma SameLiveWf(t: seq<byte>, f: Links, f': Links, g: Shape)
    requires Wf(t, f, g) && Dims(t, f', g) && SameLive(f, f')
    ensures Wf(t, f', g)
  {
    forall y | Live(f', y) ensures NodeOk(t, f', g, y) {
      assert Live(f, y) && NodeOk(t, f, g, y);
      var x := f.p[y];
      assert x < N ==> Live(f, x);
    }
    forall c | 0 <= c < 256 ensures TreeOk(t, f', g, c) {
      assert TreeOk(t, f, g, c);
    }
  }

  /** Text that no live node's string covers can change freely. */
  lemma PokeWf(t: seq<byte>, f: Links, g: Shape, i: int, b: byte)
    requires Wf(t, f, g) && 0 <= i < |t|
    requires forall y :: Live(f, y) ==> !(y <= i < y + F)
    ensures Wf(t[i := b], f, g)
  {
    var t' := t[i := b];
    forall y | Live(f, y) ensures t'[y] == t[y] && Key(t', y) == Key(t, y) {
    }
    forall y | Live(f, y) ensures NodeOk(t', f, g, y) {
      assert NodeOk(t, f, g, y);
      assert f.l[y] != NIL ==> Live(f, f.l[y]);
      assert f.r[y] != NIL ==> Live(f, f.r[y]);
      assert f.p[y] < N ==> Live(f, f.p[y]);
    }
    forall c | 0 <= c < 256 ensures TreeOk(t', f, g, c) {
      assert TreeOk(t, f, g, c);
      assert forall k :: 0 <= k < |g.order[c]| ==> Live(f, g.order[c][k]);
      assert f.r[N + 1 + c] != NIL ==> Live(f, f.r[N + 1 + c]);
    }
  }

  /** Outside tree `c` every node and sentinel keeps its cells. */
  ghost predicate SameOutside(t: seq<byte>, f: Links, f': Links, c: int)
    requires IsText(t)
    requires |f.l| == |f'.l| == N + 1 && |f.r| == |f'.r| == N + 257 && |f.p| == |f'.p| == N + 1
  {
    && (forall y :: 0 <= y < N && t[y] != c ==> f'.l[y] == f.l[y] && f'.r[y] == f.r[y] && f'.p[y] == f.p[y])
    && (forall x :: N < x < N + 257 && x != N + 1 + c ==> f'.r[x] == f.r[x])
  }

  // ---------- Searching ----------

  /** The subtree of tree `c` that the search enters next from `x` covers `a..b`. */
  ghost predicate Edge(t: seq<byte>, f: Links, g: Shape, c: int, x: int, right: bool, a: int, b: int)
    requires Dims(t, f, g) && 0 <= c < 256
  {
    if right then
      || (x == N + 1 + c && a == 0 && b == |g.order[c]|)
      || (Live(f, x) && t[x] == c && a == g.pos[x] + 1 && b == g.hi[x])
    else
      Live(f, x) && t[x] == c && a == g.lo[x] && b == g.pos[x]
  }

  /** Key `r` falls between indices `a` and `b` of the listing, and the two listed nodes that
      enclose the gap match it in at most `m` bytes. */
  ghost predicate Bracket(t: seq<byte>, s: seq<int>, r: int, a: int, b: int, m: int)
    requires IsText(t) && 0 <= r < N
  {
    && Nodes(s) && 0 <= a <= b <= |s|
    && (forall j :: 0 <= j < a ==> Less(Key(t, s[j]), Key(t, r)))
    && (forall j :: b <= j < |s| ==> Less(Key(t, r), Key(t, s[j])))
    && (a > 0 ==> Match(Key(t, s[a - 1]), Key(t, r)) <= m)
    && (b < |s| ==> Match(Key(t, s[b]), Key(t, r)) <= m)
  }

  lemma BracketRight(t: seq<byte>, s: seq<int>, r: int, a: int, b: int, m: int, k: int, m': int)
    requires IsText(t) && 0 <= r < N && Sorted(t, s) && Bracket(t, s, r, a, b, m) && a <= k < b
    requires Less(Key(t, s[k]), Key(t, r))
    requires m <= m' && Match(Key(t, s[k]), Key(t, r)) <= m'
    ensures Bracket(t, s, r, k + 1, b, m')
  {
    forall j | 0 <= j < k ensures Less(Key(t, s[j]), Key(t, r)) {
      LessChain(Key(t, s[j]), Key(t, s[k]), Key(t, r));
    }
  }

  lemma BracketLeft(t: seq<byte>, s: seq<int>, r: int, a: int, b: int, m: int, k: int, m': int)
    requires IsText(t) && 0 <= r < N && Sorted(t, s) && Bracket(t, s, r, a, b, m) && a <= k < b
    requires Less(Key(t, r), Key(t, s[k]))
    requires m <= m' && Match(Key(t, s[k]), Key(t, r)) <= m'
    ensures Bracket(t, s, r, a, k, m')
  {
    forall j | k < j < |s| ensures Less(Key(t, r), Key(t, s[j])) {
      LessChain(Key(t, r), Key(t, s[k]), Key(t, s[j]));
    }
  }

  /** Once the gap is empty, no listed node matches better than the two around it. */
  lemma BracketEnd(t: seq<byte>, s: seq<int>, r: int, k: int, b: int, m: int)
    requires IsText(t) && 0 <= r < N && Sorted(t, s) && Bracket(t, s, r, k, b, m) && k == b
    ensures Fits(t, s, r, k)
    ensures forall j :: 0 <= j < |s| ==> Match(Key(t, s[j]), Key(t, r)) <= m
  {
    forall j | 0 <= j < |s| ensures Match(Key(t, s[j]), Key(t, r)) <= m {
      if j < k - 1 {
        LessChain(Key(t, s[j]), Key(t, s[k - 1]), Key(t, r));
      } else if j > k {
        LessChain(Key(t, r), Key(t, s[k]), Key(t, s[j]));
        MatchSymmetric(Key(t, r), Key(t, s[k]));
        MatchSymmetric(Key(t, r), Key(t, s[j]));
      }
    }
  }

  ghost function Child(f: Links, x: int, right: bool): int
    requires |f.l| == N + 1 && |f.r| == N + 257 && 0 <= x < N + 257 && (right || x < N)
  {
    if right then f.r[x] else f.l[x]
  }

  /** Following an edge leads to a node inside its interval, and a missing child leaves no gap. */
  lemma Enter(t: seq<byte>, f: Links, g: Shape, c: int, x: int, right: bool, a: int, b: int)
    requires Wf(t, f, g) && 0 <= c < 256 && Edge(t, f, g, c, x, right, a, b)
    ensures var z := Child(f, x, right);
      if z == NIL then
        a == b && Slot(t, f, g, c, x, a, right)
      else
        && Live(f, z) && t[z] == c && 0 <= a <= g.pos[z] < b <= |g.order[c]| && g.order[c][g.pos[z]] == z
        && Edge(t, f, g, c, z, true, g.pos[z] + 1, b) && Edge(t, f, g, c, z, false, a, g.pos[z])
  {
    if x < N {
      assert NodeOk(t, f, g, x);
    } else {
      assert TreeOk(t, f, g, c);
    }
    var z := Child(f, x, right);
    if z != NIL {
      assert Live(f, z) && NodeOk(t, f, g, z);
    }
  }

  /** `mp` and `ml` describe the best match for `r` among the nodes `s`. */
  ghost predicate Longest(t: seq<byte>, s: seq<int>, r: int, mp: int, ml: int)
    requires IsText(t) && 0 <= r < N
  {
    && Nodes(s)
    && (s == [] ==> ml == 0)
    && (s != [] ==> mp in s && Match(Key(t, mp), Key(t, r)) == ml)
    && (forall j :: 0 <= j < |s| ==> Match(Key(t, s[j]), Key(t, r)) <= ml)
  }

  /** The state of a search for `r`, about to follow an edge of `x`, best match so far `mp`, `ml`. */
  ghost predicate Searching(t: seq<byte>, f: Links, g: Shape, r: int, x: int, right: bool,
                            a: int, b: int, mp: int, ml: int)
  {
    && Wf(t, f, g) && 0 <= r < N && !Live(f, r)
    && Edge(t, f, g, t[r], x, right, a, b)
    && Bracket(t, g.order[t[r]], r, a, b, ml)
    && 0 <= ml < F
    && (ml == 0 ==> a == 0 && b == |g.order[t[r]]|)
    && (ml > 0 ==> mp in g.order[t[r]] && Match(Key(t, mp), Key(t, r)) == ml)
  }

  lemma SearchStart(t: seq<byte>, f: Links, g: Shape, r: int, mp: int)
    requires Wf(t, f, g) && 0 <= r < N && !Live(f, r)
    ensures Searching(t, f, g, r, N + 1 + t[r], true, 0, |g.order[t[r]]|, mp, 0)
  {
    assert TreeOk(t, f, g, t[r]);
  }

  /** Comparing with the node at index `k` narrows the bracket to one side of it. */
  lemma StepBracket(t: seq<byte>, s: seq<int>, r: int, a: int, b: int, m: int, k: int, m': int)
      returns (a': int, b': int)
    requires IsText(t) && 0 <= r < N && Sorted(t, s) && Bracket(t, s, r, a, b, m) && a <= k < b
    requires m <= m' && Match(Key(t, r), Key(t, s[k])) <= m' && Match(Key(t, r), Key(t, s[k])) < F
    ensures Match(Key(t, r), Key(t, s[k])) == Match(Key(t, s[k]), Key(t, r))
    ensures Bracket(t, s, r, a', b', m')
    ensures if Less(Key(t, r), Key(t, s[k])) then a' == a && b' == k else a' == k + 1 && b' == b
  {
    MatchSymmetric(Key(t, r), Key(t, s[k]));
    if Less(Key(t, r), Key(t, s[k])) {
      BracketLeft(t, s, r, a, b, m, k, m');
      a', b' := a, k;
    } else {
      BracketRight(t, s, r, a, b, m, k, m');
      a', b' := k + 1, b;
    }
  }

  lemma FullMatch(t: seq<byte>, s: seq<int>, r: int, z: int)
    requires IsText(t) && 0 <= r < N && Nodes(s) && z in s && Match(Key(t, r), Key(t, z)) == F
    ensures Longest(t, s, r, z, F)
  {
    MatchSymmetric(Key(t, r), Key(t, z));
  }

  /** One comparison, with child `z`: the search ends there or goes on below it. */
  lemma SearchStep(t: seq<byte>, f: Links, g: Shape, r: int, x: int, right: bool,
                   a: int, b: int, mp: int, ml: int, z: int)
      returns (right': bool, a': int, b': int, mp': int, ml': int)
    requires Searching(t, f, g, r, x, right, a, b, mp, ml) && z == Child(f, x, right) && z != NIL
    ensures Live(f, z) && t[z] == t[r]
    ensures var i := Match(Key(t, r), Key(t, z));
      && mp' == (if i > ml then z else mp) && ml' == (if i > ml then i else ml)
      && if i == F then Longest(t, g.order[t[r]], r, z, F)
         else
           && Searching(t, f, g, r, z, right', a', b', mp', ml') && b' - a' < b - a
           && right' == !Less(Key(t, r), Key(t, z))
  {
    var c := t[r];
    var s := g.order[c];
    Enter(t, f, g, c, x, right, a, b);
    assert Key(t, r)[0] == Key(t, z)[0];
    assert Sorted(t, s) by { assert TreeOk(t, f, g, c); }
    var i := Match(Key(t, r), Key(t, z));
    mp', ml' := if i > ml then z else mp, if i > ml then i else ml;
    right' := !Less(Key(t, r), Key(t, z));
    if i < F {
      a', b' := StepBracket(t, s, r, a, b, ml, g.pos[z], ml');
    } else {
      a', b' := a, b;
      FullMatch(t, s, r, z);
    }
  }

  lemma SearchEnd(t: seq<byte>, f: Links, g: Shape, r: int, x: int, right: bool,
                  a: int, b: int, mp: int, ml: int)
    requires Searching(t, f, g, r, x, right, a, b, mp, ml) && Child(f, x, right) == NIL
    ensures Longest(t, g.order[t[r]], r, mp, ml) && Fits(t, g.order[t[r]], r, a)
    ensures Slot(t, f, g, t[r], x, a, right)
  {
    Enter(t, f, g, t[r], x, right, a, b);
    assert Sorted(t, g.order[t[r]]) by { assert TreeOk(t, f, g, t[r]); }
    BracketEnd(t, g.order[t[r]], r, a, b, ml);
  }

  // ---------- Deleting a node with two children ----------

  /** What `delete_node` writes when `p` has two children and `q` precedes it in the listing. */
  function DeleteBoth(f: Links, p: int, q: int): Links
    requires CanDeleteBoth(f, p, q)
  {
    var f1 := if q == f.l[p] then f else
      Links(f.l[q := f.l[p]], f.r[f.p[q] := f.l[q]], f.p[f.l[q] := f.p[q]][f.l[p] := q]);
    var f2 := Links(f1.l, f1.r[q := f.r[p]], f1.p[f.r[p] := q][q := f.p[p]]);
    Redirect(f2, f.p[p], p, q).(p := f2.p[p := NIL])
  }

  predicate CanDeleteBoth(f: Links, p: int, q: int) {
    && CanReplace(f, p, q) && f.l[p] != NIL && f.r[p] != NIL && f.r[p] != q
    && 0 <= f.l[q] <= N && f.l[q] != p && f.l[q] != q && f.r[q] == NIL
    && 0 <= f.p[q] < N && f.p[q] != q && (f.p[q] == p <==> f.l[p] == q)
    && f.p[p] != q && f.p[p] != f.p[q] && f.p[p] != NIL && f.p[f.l[p]] == p && f.p[f.r[p]] == p
    && (f.l[q] != NIL ==> f.l[q] != f.r[p] && f.p[f.l[q]] == q)
    && f.r[f.p[q]] == if f.p[q] == p then f.r[p] else q
  }

  ghost predicate Precedes(t: seq<byte>, f: Links, g: Shape, p: int, q: int)
    requires Dims(t, f, g) && 0 <= p < N
  {
    Live(f, q) && t[q] == t[p] && g.pos[q] == g.pos[p] - 1 && g.hi[q] == g.pos[p] && f.r[q] == NIL
  }

  lemma PrecedesCan(t: seq<byte>, f: Links, g: Shape, p: int, q: int)
    requires Wf(t, f, g) && Live(f, p) && f.l[p] != NIL && f.r[p] != NIL && Precedes(t, f, g, p, q)
    ensures NodeOk(t, f, g, p) && NodeOk(t, f, g, q) && Placed(t, g, p) && CanDeleteBoth(f, p, q)
  {
    assert NodeOk(t, f, g, p) && NodeOk(t, f, g, q);
    assert f.p[q] < N by {
      assert TreeOk(t, f, g, t[q]);
    }
    assert NodeOk(t, f, g, f.p[q]) && NodeOk(t, f, g, f.l[p]);
    assert f.p[p] < N ==> NodeOk(t, f, g, f.p[p]);
  }

  lemma CutCanReplace(f: Links, p: int, q: int)
    requires CanDeleteBoth(f, p, q)
    ensures CanReplace(Cut(f, q, f.l[q]), p, q)
  {
  }

  /** The case of a left child without a right one, and the case of a node further down. */
  lemma DeleteBothNear(f: Links, p: int, q: int)
    requires CanDeleteBoth(f, p, q) && CanReplace(Cut(f, q, f.l[q]), p, q) && q == f.l[p]
    ensures SameLive(Replace(Cut(f, q, f.l[q]), p, q), DeleteBoth(f, p, q))
  {
  }

  lemma DeleteBothFar(f: Links, p: int, q: int)
    requires CanDeleteBoth(f, p, q) && CanReplace(Cut(f, q, f.l[q]), p, q) && q != f.l[p]
    ensures SameLive(Replace(Cut(f, q, f.l[q]), p, q), DeleteBoth(f, p, q))
  {
  }

  /** Deleting `p` is cutting out `q`, which has no right child, and letting it take over from `p`. */
  lemma DeleteBothSame(f: Links, p: int, q: int)
    requires CanDeleteBoth(f, p, q)
    ensures CanReplace(Cut(f, q, f.l[q]), p, q)
    ensures SameLive(Replace(Cut(f, q, f.l[q]), p, q), DeleteBoth(f, p, q))
  {
    hide SameLive, DeleteBoth;
    CutCanReplace(f, p, q);
    if q == f.l[p] {
      DeleteBothNear(f, p, q);
    } else {
      DeleteBothFar(f, p, q);
    }
  }

  /** After `q` is cut out, `p` stands where `q` stood, and the listing lacks `q` only. */
  lemma CutBefore(t: seq<byte>, f: Links, g: Shape, p: int, q: int)
    requires Dims(t, f, g) && Live(f, p) && Live(f, q) && NodeOk(t, f, g, p) && NodeOk(t, f, g, q)
    requires Precedes(t, f, g, p, q) && CanDeleteBoth(f, p, q)
    ensures Live(Cut(f, q, f.l[q]), p) && !Live(Cut(f, q, f.l[q]), q)
    ensures CutShape(t, g, q).pos[p] == g.pos[p] - 1
    ensures CutShape(t, g, q).order[t[p]][g.pos[p] - 1 := q] == RemoveAt(g.order[t[p]], g.pos[p])
  {
    var k, s := g.pos[p], g.order[t[p]];
    assert RemoveAt(s, k - 1)[k - 1 := q] == RemoveAt(s, k);
  }

  /** Deleting `p` leaves well-formed trees; the listing loses `p` and keeps the rest in order. */
  lemma DeleteBothWf(t: seq<byte>, f: Links, g: Shape, p: int, q: int) returns (g': Shape)
    requires Wf(t, f, g) && Live(f, p) && f.l[p] != NIL && f.r[p] != NIL && Precedes(t, f, g, p, q)
    ensures NodeOk(t, f, g, p) && CanDeleteBoth(f, p, q)
    ensures Wf(t, DeleteBoth(f, p, q), g')
    ensures g'.order == g.order[t[p] := RemoveAt(g.order[t[p]], g.pos[p])]
  {
    hide NodeOk, Hangs, Sorted, Listed;
    PrecedesCan(t, f, g, p, q);
    assert Sorted(t, g.order[t[p]]) by { assert TreeOk(t, f, g, t[p]); }
    RemoveSorted(t, g.order[t[p]], g.pos[p]);
    CutBefore(t, f, g, p, q);
    CutWf(t, f, g, q, f.l[q]);
    DeleteBothSame(f, p, q);
    g' := ReplaceLast(t, Cut(f, q, f.l[q]), CutShape(t, g, q), p, q, DeleteBoth(f, p, q));
    assert g'.order == g.order[t[p] := RemoveAt(g.order[t[p]], g.pos[p])];
  }

  lemma DeleteBothOutside(t: seq<byte>, f: Links, g: Shape, p: int, q: int)
    requires Dims(t, f, g) && CanDeleteBoth(f, p, q) && NodeOk(t, f, g, p) && NodeOk(t, f, g, q) && t[p] == t[q]
    ensures SameOutside(t, f, DeleteBoth(f, p, q), t[p])
  {
  }

  lemma ReplaceLast(t: seq<byte>, f: Links, g: Shape, p: int, q: int, f': Links) returns (g': Shape)
    requires Wf(t, f, g) && Live(f, p) && 0 <= g.pos[p] < |g.order[t[p]]|
    requires 0 <= q < N && !Live(f, q) && t[q] == t[p] && CanReplace(f, p, q)
    requires Sorted(t, g.order[t[p]][g.pos[p] := q])
    requires Dims(t, f', g) && SameLive(Replace(f, p, q), f')
    ensures Wf(t, f', g') && g'.order == g.order[t[p] := g.order[t[p]][g.pos[p] := q]]
  {
    assert NodeOk(t, f, g, p);
    ReplaceWf(t, f, g, p, q);
    g' := ReplaceShape(t, g, p, q);
    SameLiveWf(t, Replace(f, p, q), f', g');
  }

  // ---------- What well-formedness means for a reader of the links ----------

  /** The listings hold exactly the live nodes, each under its own first byte. */
  lemma ListedIffLive(t: seq<byte>, f: Links, g: Shape, y: int, c: int)
    requires Wf(t, f, g) && 0 <= y < N && 0 <= c < 256
    ensures y in g.order[c] <==> Live(f, y) && t[y] == c
  {
    assert TreeOk(t, f, g, c);
    if Live(f, y) {
      assert NodeOk(t, f, g, y);
    }
  }

  ghost function Ancestor(f: Links, y: int, n: nat): int
    requires |f.p| == N + 1
    decreases n
  {
    if n == 0 then y
    else if 0 <= y < N then Ancestor(f, f.p[y], n - 1)
    else y
  }

  /** There are no cycles: from every live node the parent links climb to the sentinel of its tree. */
  lemma {:induction false} ClimbsToRoot(t: seq<byte>, f: Links, g: Shape, y: int) returns (n: nat)
    requires Wf(t, f, g) && Live(f, y)
    ensures n > 0 && Ancestor(f, y, n) == N + 1 + t[y]
    decreases |g.order[t[y]]| - (g.hi[y] - g.lo[y])
  {
    assert NodeOk(t, f, g, y);
    var x := f.p[y];
    if x == N + 1 + t[y] {
      n := 1;
      assert Ancestor(f, x, 0) == x;
    } else {
      assert NodeOk(t, f, g, x);
      n := ClimbsToRoot(t, f, g, x);
      n := n + 1;
    }
  }
}
