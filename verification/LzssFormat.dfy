/** The compressed format itself: tokens as bytes, and what they write when played on the ring. */
module LzssFormat {
  import opened Bytes
  import opened LzssParams
  import opened LzssDecoder

  // ---------- The format, byte by byte ----------

  /** The tokens that the format can carry. */
  predicate Encodable(t: Token) {
    t.Literal? || (0 <= t.pos < 4096 && 3 <= t.len <= 18)
  }

  /** A literal is its byte; a copy has its position in the first byte and the high half of the second,
      and its length, less 3, in the low half. */
  function ItemBytes(t: Token): seq<byte>
    requires Encodable(t)
  {
    match t
    case Literal(b) => [b]
    case Copy(pos, len) => [pos % 256, pos / 256 * 16 + (len - 3)]
  }

  ghost predicate AllEncodable(ts: seq<Token>) {
    forall i :: 0 <= i < |ts| ==> Encodable(ts[i])
  }

  function ItemsBytes(ts: seq<Token>): seq<byte>
    requires AllEncodable(ts)
  {
    if ts == [] then [] else ItemBytes(ts[0]) + ItemsBytes(ts[1..])
  }

  /** The flag byte of up to eight tokens: a one bit for a literal, the first token in bit 0. */
  function FlagBits(ts: seq<Token>): (c: int)
    requires |ts| <= 8
    ensures 0 <= c < [1, 2, 4, 8, 16, 32, 64, 128, 256][|ts|]
  {
    if ts == [] then 0 else (if ts[0].Literal? then 1 else 0) + 2 * FlagBits(ts[1..])
  }

  /** A source: each flag byte is followed by its eight items, or by what is left. */
  function Packed(ts: seq<Token>): seq<byte>
    requires AllEncodable(ts)
  {
    if ts == [] then []
    else
      var k := if |ts| < 8 then |ts| else 8;
      [FlagBits(ts[..k])] + ItemsBytes(ts[..k]) + Packed(ts[k..])
  }

  lemma {:induction false} ShiftFlags(ts: seq<Token>, b: nat)
    requires b <= |ts| <= 8
    ensures Shift(FlagBits(ts), b) == FlagBits(ts[b..])
  {
    if b == 0 {
      assert ts[0..] == ts;
    } else {
      ShiftFlags(ts, b - 1);
      assert ts[b - 1..][1..] == ts[b..];
    }
  }

  lemma FlagBit(ts: seq<Token>, b: nat)
    requires b < |ts| <= 8
    ensures Bit(FlagBits(ts), b) == if ts[b].Literal? then 1 else 0
  {
    ShiftFlags(ts, b);
  }

  lemma ItemUnpacks(t: Token, rest: seq<byte>)
    requires Encodable(t)
    ensures var bit := if t.Literal? then 1 else 0;
      var src := ItemBytes(t) + rest;
      ItemSize(bit) == |ItemBytes(t)| <= |src| && Item(src, bit) == t && src[ItemSize(bit)..] == rest
  {
  }

  lemma TokenStep(t: Token, rest: seq<byte>, c: byte, b: int)
    requires Encodable(t) && 0 <= b < 8 && Bit(c, b) == if t.Literal? then 1 else 0
    ensures Tokens(ItemBytes(t) + rest, c, b) == [t] + Tokens(rest, c, b + 1)
  {
    hide Item, ItemBytes, Bit;
    ItemUnpacks(t, rest);
  }

  lemma ItemsStep(ts: seq<Token>, b: nat, rest: seq<byte>)
    requires b < |ts| && AllEncodable(ts)
    ensures ItemsBytes(ts[b..]) + rest == ItemBytes(ts[b]) + (ItemsBytes(ts[b + 1..]) + rest)
  {
    hide ItemBytes;
    assert ts[b..][1..] == ts[b + 1..];
  }

  lemma {:induction false} GroupUnpacks(ts: seq<Token>, b: nat, rest: seq<byte>)
    requires b <= |ts| <= 8 && AllEncodable(ts)
    ensures Tokens(ItemsBytes(ts[b..]) + rest, FlagBits(ts), b) == ts[b..] + Tokens(rest, FlagBits(ts), |ts|)
    decreases |ts| - b
  {
    hide Tokens, ItemBytes, FlagBits, Bit;
    if b == |ts| {
      assert ts[b..] == [] && ItemsBytes([]) + rest == rest;
    } else {
      hide ItemsBytes;
      GroupUnpacks(ts, b + 1, rest);
      FlagBit(ts, b);
      ItemsStep(ts, b, rest);
      TokenStep(ts[b], ItemsBytes(ts[b + 1..]) + rest, FlagBits(ts), b);
      assert ts[b..] == [ts[b]] + ts[b + 1..];
    }
  }

  /** Tokens packed into bytes are the tokens the decoder finds there. */
  lemma {:induction false} TokensPacked(ts: seq<Token>, c: byte)
    requires AllEncodable(ts)
    ensures Tokens(Packed(ts), c, 8) == ts
    decreases |ts|
  {
    hide FlagBits, ItemsBytes;
    if ts == [] {
    } else {
      var k := if |ts| < 8 then |ts| else 8;
      var group, rest := ts[..k], Packed(ts[k..]);
      var items := ItemsBytes(group) + rest;
      assert Packed(ts) == [FlagBits(group)] + items;
      assert ([FlagBits(group)] + items)[1..] == items;
      assert group[0..] == group;
      GroupUnpacks(group, 0, rest);
      TokensPacked(ts[k..], FlagBits(group));
      assert ts == group + ts[k..];
    }
  }

  // ---------- The ring as the source has it ----------

  /** What cell `p` of the ring holds when `out` has been written: output byte `j` went to cell
      `4078 + j`, around the ring, and before that the cell held a space or was not set. */
  function Cell(out: seq<byte>, unset: seq<byte>, p: int): byte
    requires |unset| == F && 0 <= p < 4096
  {
    if out == [] then if p < 4078 then ' ' as int else unset[p - 4078]
    else if (4078 + |out| - 1) % 4096 == p then out[|out| - 1]
    else Cell(out[..|out| - 1], unset, p)
  }

  /** The bytes of a copy are read from consecutive cells, each after the one before was written. */
  function PlayCopy(out: seq<byte>, unset: seq<byte>, pos: int, len: int): seq<byte>
    requires |unset| == F
    decreases len
  {
    if len <= 0 then out else PlayCopy(out + [Cell(out, unset, pos % 4096)], unset, pos + 1, len - 1)
  }

  function Play(ts: seq<Token>, out: seq<byte>, unset: seq<byte>): seq<byte>
    requires |unset| == F
  {
    if ts == [] then out
    else
      match ts[0]
      case Literal(b) => Play(ts[1..], out + [b], unset)
      case Copy(pos, len) => Play(ts[1..], PlayCopy(out, unset, pos, len), unset)
  }

  lemma FirstWindow(unset: seq<byte>, pos: int)
    requires |unset| == F
    ensures Window(unset)[N - Distance(pos, N)] == Cell([], unset, pos % 4096)
  {
  }

  lemma DistanceGrows(pos: int, n: int)
    requires n >= 0
    ensures (4078 + n) % 4096 == pos % 4096 ==> Distance(pos, N + n + 1) == 1
    ensures (4078 + n) % 4096 != pos % 4096 ==> Distance(pos, N + n + 1) == Distance(pos, N + n) + 1
  {
  }

  /** Looking that far back in history is reading the cell. */
  lemma {:induction false} CellIs(out: seq<byte>, unset: seq<byte>, pos: int)
    requires |unset| == F
    ensures var h := Window(unset) + out; h[|h| - Distance(pos, |h|)] == Cell(out, unset, pos % 4096)
  {
    hide Distance, Window;
    if out == [] {
      assert Window(unset) + out == Window(unset);
      FirstWindow(unset, pos);
    } else {
      var n := |out| - 1;
      DistanceGrows(pos, n);
      CellIs(out[..n], unset, pos);
      assert Window(unset) + out == Window(unset) + out[..n] + [out[n]];
    }
  }

  lemma {:induction false} PlaysCopy(out: seq<byte>, unset: seq<byte>, pos: int, len: int)
    requires |unset| == F
    ensures var h := Window(unset) + out;
      CopyBack(h, Distance(pos, |h|), len) == Window(unset) + PlayCopy(out, unset, pos, len)
    decreases len
  {
    hide Distance, Window, Cell;
    if len <= 0 {
    } else {
      var h, x := Window(unset) + out, Cell(out, unset, pos % 4096);
      CellIs(out, unset, pos);
      SameDistance(pos, |h|, 1);
      assert h + [x] == Window(unset) + (out + [x]);
      PlaysCopy(out + [x], unset, pos + 1, len - 1);
    }
  }

  lemma {:induction false} Plays(ts: seq<Token>, out: seq<byte>, unset: seq<byte>)
    requires |unset| == F
    ensures Expand(ts, Window(unset) + out) == Window(unset) + Play(ts, out, unset)
  {
    hide Distance, Window, CopyBack, PlayCopy;
    if ts == [] {
    } else {
      match ts[0]
      case Literal(b) =>
        assert Window(unset) + out + [b] == Window(unset) + (out + [b]);
        Plays(ts[1..], out + [b], unset);
      case Copy(pos, len) =>
        PlaysCopy(out, unset, pos, len);
        Plays(ts[1..], PlayCopy(out, unset, pos, len), unset);
    }
  }

  /** Any tokens, packed into bytes, decode to what playing them on the ring writes. */
  lemma DecodePacked(ts: seq<Token>, unset: seq<byte>)
    requires AllEncodable(ts) && |unset| == F
    ensures Decode(Packed(ts), unset) == Play(ts, [], unset)
  {
    hide Expand, Tokens, Packed, Play, Window;
    TokensPacked(ts, 0);
    Plays(ts, [], unset);
    assert Window(unset) + [] == Window(unset);
  }
}
