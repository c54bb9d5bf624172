/** Big-endian words and strings in a mapped cache file. */
module PackedBuffer {

  type Byte = b: nat | b < 256

  /** `GET_UINT32`. */
  function U32(buf: seq<Byte>, off: nat): (w: nat)
    requires off + 4 <= |buf|
    ensures w < 0x1_0000_0000
  {
    var a: nat, b: nat, c: nat, d: nat := buf[off], buf[off + 1], buf[off + 2], buf[off + 3];
    a * 0x100_0000 + b * 0x1_0000 + c * 0x100 + d
  }

  /** The characters up to the terminator, or to the end of the buffer. */
  function StringAt(buf: seq<Byte>, off: nat): (s: string)
    ensures forall i :: 0 <= i < |s| ==> s[i] != '\0'
    decreases |buf| - off
  {
    if off >= |buf| || buf[off] == 0 then [] else [buf[off] as char] + StringAt(buf, off + 1)
  }

  lemma Times(x: nat, y: nat, m: nat)
    requires x <= y
    ensures x * m <= y * m
  {
  }

  lemma Quotient(q: nat, r: nat, m: nat)
    requires r < m
    ensures (q * m + r) / m == q && (q * m + r) % m == r
  {
    var w := q * m + r;
    assert (w / m) * m + w % m == w;
    var k := w / m;
    if k + 1 <= q { Times(k + 1, q, m); }
    if q + 1 <= k { Times(q + 1, k, m); }
  }

  /** Four bytes, the most significant first, and the number that they are the digits of. */
  lemma Digits(w: nat, a: Byte, b: Byte, c: Byte, d: Byte)
    ensures w == a * 0x100_0000 + b * 0x1_0000 + c * 0x100 + d
      <==> w < 0x1_0000_0000 && a == w / 0x100_0000 && b == w / 0x1_0000 % 0x100 && c == w / 0x100 % 0x100 && d == w % 0x100
  {
    if w == a * 0x100_0000 + b * 0x1_0000 + c * 0x100 + d {
      Quotient(a, b * 0x1_0000 + c * 0x100 + d, 0x100_0000);
      Quotient(a * 0x100 + b, c * 0x100 + d, 0x1_0000);
      Quotient(a, b, 0x100);
      Quotient(a * 0x1_0000 + b * 0x100 + c, d, 0x100);
      Quotient(a * 0x100 + b, c, 0x100);
    }
    if w < 0x1_0000_0000 && a == w / 0x100_0000 && b == w / 0x1_0000 % 0x100 && c == w / 0x100 % 0x100 && d == w % 0x100 {
      var x := w / 0x100;
      var y := x / 0x100;
      assert w == x * 0x100 + d && x == y * 0x100 + c && y == w / 0x1_0000;
      assert y == (y / 0x100) * 0x100 + b && y / 0x100 == a;
    }
  }

  /** The most significant byte comes first. */
  lemma WordBytes(buf: seq<Byte>, off: nat)
    requires off + 4 <= |buf|
    ensures U32(buf, off) / 0x100_0000 == buf[off] && U32(buf, off) / 0x1_0000 % 0x100 == buf[off + 1]
    ensures U32(buf, off) / 0x100 % 0x100 == buf[off + 2] && U32(buf, off) % 0x100 == buf[off + 3]
  {
    Digits(U32(buf, off), buf[off], buf[off + 1], buf[off + 2], buf[off + 3]);
  }

  /** Words as a file holds them. */
  function Bytes(ws: seq<nat>): (buf: seq<Byte>)
    ensures |buf| == 4 * |ws|
  {
    if ws == [] then []
    else
      var w := ws[|ws| - 1];
      Bytes(ws[..|ws| - 1]) + [w / 0x100_0000 % 0x100, w / 0x1_0000 % 0x100, w / 0x100 % 0x100, w % 0x100]
  }

  lemma {:induction false} BytesOfWord(ws: seq<nat>, k: nat)
    requires k < |ws|
    ensures Bytes(ws)[4 * k] == ws[k] / 0x100_0000 % 0x100 && Bytes(ws)[4 * k + 1] == ws[k] / 0x1_0000 % 0x100
    ensures Bytes(ws)[4 * k + 2] == ws[k] / 0x100 % 0x100 && Bytes(ws)[4 * k + 3] == ws[k] % 0x100
  {
    var n := |ws| - 1;
    if k < n {
      BytesOfWord(ws[..n], k);
    }
  }

  /** A word that was written is read. */
  lemma WordAt(ws: seq<nat>, k: nat)
    requires k < |ws| && ws[k] < 0x1_0000_0000
    ensures U32(Bytes(ws), 4 * k) == ws[k]
  {
    hide Bytes;
    BytesOfWord(ws, k);
    var buf, w := Bytes(ws), ws[k];
    Digits(w, buf[4 * k], buf[4 * k + 1], buf[4 * k + 2], buf[4 * k + 3]);
  }
}
