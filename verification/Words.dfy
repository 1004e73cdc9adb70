/**
  Bytes, fixed-width unsigned words and their little-endian form.

  Words are mathematical integers confined to the width of the C++ type, so that
  truncation is always written out.
 */
module Words {

  type byte = b: int | 0 <= b < 0x100
  type u16 = w: int | 0 <= w < 0x1_0000
  type u32 = w: int | 0 <= w < 0x1_0000_0000
  type u64 = w: int | 0 <= w < 0x1_0000_0000_0000_0000

  lemma SliceOfSlice<T>(s: seq<T>, from: nat, to: nat, i: nat, j: nat)
    requires from <= to <= |s| && i <= j <= to - from
    ensures s[from..to][i..j] == s[from + i..from + j]
  {
    var l, r := s[from..to][i..j], s[from + i..from + j];
    assert |l| == |r| && forall k :: 0 <= k < |l| ==> l[k] == r[k];
  }

  const MAX_U64: u64 := 0xffff_ffff_ffff_ffff

  datatype Option<+T> = None | Some(value: T)

  /** The `n` low-order bytes of `v`, least significant first. */
  function Le(v: nat, n: nat): (s: seq<byte>)
    ensures |s| == n
  {
    if n == 0 then [] else [v % 0x100] + Le(v / 0x100, n - 1)
  }

  function FromLe(s: seq<byte>): nat {
    if s == [] then 0 else s[0] + 0x100 * FromLe(s[1..])
  }

  /** The number of distinct `n`-byte words. */
  function Span(n: nat): nat {
    if n == 0 then 1 else 0x100 * Span(n - 1)
  }

  lemma Spans()
    ensures Span(2) == 0x1_0000
    ensures Span(4) == 0x1_0000_0000
    ensures Span(8) == 0x1_0000_0000_0000_0000
  {
    assert Span(4) == 0x1_0000 * Span(2);
    assert Span(6) == 0x1_0000 * Span(4);
    assert Span(8) == 0x1_0000 * Span(6);
  }

  /** Reading back a written word that fits the width gives the word. */
  lemma {:induction false} ReadWritten(v: nat, n: nat)
    requires v < Span(n)
    ensures FromLe(Le(v, n)) == v
  {
    if n != 0 {
      ReadWritten(v / 0x100, n - 1);
      assert Le(v, n)[1..] == Le(v / 0x100, n - 1);
    }
  }

  lemma LowByte(b: byte, high: nat)
    ensures (b + 0x100 * high) % 0x100 == b && (b + 0x100 * high) / 0x100 == high
  {
  }

  /** Writing back a read word gives the bytes: the two directions are inverse. */
  lemma {:induction false} WriteRead(s: seq<byte>)
    ensures FromLe(s) < Span(|s|)
    ensures Le(FromLe(s), |s|) == s
  {
    if s != [] {
      WriteRead(s[1..]);
      LowByte(s[0], FromLe(s[1..]));
      assert s == [s[0]] + s[1..];
    }
  }

  lemma LittleEndianInjective(s: seq<byte>, t: seq<byte>)
    requires |s| == |t| && FromLe(s) == FromLe(t)
    ensures s == t
  {
    WriteRead(s);
    WriteRead(t);
  }

  /** `append_u16_le`, `append_u32_le` and `append_u64_le`: one shift-and-mask loop over the width. */
  method AppendLe(out: seq<byte>, value: nat, width: nat) returns (r: seq<byte>)
    ensures r == out + Le(value, width)
  {
    r := out;
    var rest := value;
    for i := 0 to width
      invariant r + Le(rest, width - i) == out + Le(value, width)
    {
      assert Le(rest, width - i) == [rest % 0x100] + Le(rest / 0x100, width - i - 1);
      r := r + [rest % 0x100];
      rest := rest / 0x100;
    }
  }

  /** The word of `width` bytes at `offset`, if the bytes reach that far. */
  function ReadAt(bytes: seq<byte>, offset: nat, width: nat): Option<nat> {
    if |bytes| < offset + width then None else Some(FromLe(bytes[offset..offset + width]))
  }

  lemma {:induction false} FromLeSnoc(s: seq<byte>, b: byte)
    ensures FromLe(s + [b]) == FromLe(s) + Span(|s|) * b
  {
    if s == [] {
      assert [b][1..] == [];
      assert FromLe([b]) == b;
    } else {
      assert (s + [b])[1..] == s[1..] + [b];
      FromLeSnoc(s[1..], b);
      assert 0x100 * (Span(|s| - 1) * b) == Span(|s|) * b;
    }
  }

  /** `read_u16_le`, `read_u32_le` and `read_u64_le`: the accumulating loop. */
  method ReadLe(bytes: seq<byte>, offset: nat, width: nat) returns (r: Option<nat>)
    ensures r == ReadAt(bytes, offset, width)
    ensures r.Some? ==> r.value < Span(width)
  {
    if offset > |bytes| || |bytes| - offset < width {
      return None;
    }
    var value: nat, scale: nat := 0, 1;
    for i := 0 to width
      invariant scale == Span(i)
      invariant value == FromLe(bytes[offset..offset + i])
    {
      assert bytes[offset..offset + i + 1] == bytes[offset..offset + i] + [bytes[offset + i]];
      FromLeSnoc(bytes[offset..offset + i], bytes[offset + i]);
      value := value + scale * bytes[offset + i];
      scale := scale * 0x100;
    }
    WriteRead(bytes[offset..offset + width]);
    r := Some(value);
  }

  /** `checked_add` on 64-bit words: the sum, or nothing when it would not fit. */
  function CheckedAdd(left: u64, right: u64): (r: Option<u64>)
    ensures r.Some? <==> left + right <= MAX_U64
    ensures r.Some? ==> r.value == left + right
  {
    if right > 0 && left > MAX_U64 - right then None else Some(left + right)
  }

  lemma SubsetSize<T>(a: set<T>, b: set<T>)
    requires a <= b
    ensures |a| <= |b|
  {
    if a != {} {
      var x :| x in a;
      SubsetSize(a - {x}, b - {x});
    }
  }
}
