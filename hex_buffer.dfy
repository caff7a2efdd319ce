/** buffer.go: a byte buffer written out as lower-case hexadecimal (`String`)
  * and extended from such text (`Load`). A Go `Buffer` is a byte slice
  * passed by value, so both operations are modelled on `seq<Byte>`; `String`
  * fills a preallocated array as the Go code does. */
module HexBuffer {
  import opened Outcomes
  import opened GoStrings

  /** A Go byte. */
  type Byte = x: int | 0 <= x < 256

  /** hextable: the symbol of each nibble value. */
  const HexTable: string := "0123456789abcdef"

  /** The symbol for nibble value n, by arithmetic. */
  function HexChar(n: int): char
    requires 0 <= n < 16
  {
    if n < 10 then ('0' as int + n) as char else ('a' as int + n - 10) as char
  }

  /** The table holds the sixteen symbols in order, so no symbol is repeated. */
  lemma HexTableChars()
    ensures |HexTable| == 16
    ensures forall n :: 0 <= n < 16 ==> HexTable[n] == HexChar(n)
  {
  }

  /** NewBuffer: an empty buffer. */
  function NewBuffer(): (b: seq<Byte>)
    ensures |b| == 0
  {
    []
  }

  /** Length: the number of bytes. */
  function Length(b: seq<Byte>): nat
  {
    |b|
  }

  /** The k-th symbol of the text of `b`: the high nibble of byte k / 2 at
    * even k, the low nibble at odd k (item>>4 and item&0x0f). */
  function HexSymbol(b: seq<Byte>, k: nat): char
    requires k < 2 * |b|
  {
    var item := b[k / 2];
    if k % 2 == 0 then HexTable[item / 16] else HexTable[item % 16]
  }

  /** The text `String` writes: two symbols per byte, high nibble first. */
  function Hex(b: seq<Byte>): (s: string)
    ensures |s| == 2 * Length(b)
    ensures forall i :: 0 <= i < |b| ==> s[2 * i] == HexTable[b[i] / 16] && s[2 * i + 1] == HexTable[b[i] % 16]
  {
    var s := seq(2 * |b|, k requires 0 <= k < 2 * |b| => HexSymbol(b, k));
    HexSymbolPairs(b, s);
    s
  }

  /** In a text of the symbols of `b`, symbols 2i and 2i + 1 are the two
    * nibbles of byte i. */
  lemma HexSymbolPairs(b: seq<Byte>, s: string)
    requires |s| == 2 * |b| && forall k :: 0 <= k < |s| ==> s[k] == HexSymbol(b, k)
    ensures forall i :: 0 <= i < |b| ==> s[2 * i] == HexTable[b[i] / 16] && s[2 * i + 1] == HexTable[b[i] % 16]
  {
    forall i | 0 <= i < |b|
      ensures s[2 * i] == HexTable[b[i] / 16] && s[2 * i + 1] == HexTable[b[i] % 16]
    {
      assert (2 * i) / 2 == i && (2 * i) % 2 == 0;
      assert (2 * i + 1) / 2 == i && (2 * i + 1) % 2 == 1;
      assert s[2 * i] == HexSymbol(b, 2 * i) && s[2 * i + 1] == HexSymbol(b, 2 * i + 1);
    }
  }

  /** `String`: a text twice the buffer's length, filled two symbols at a
    * time with j stepping by 2. */
  method String(b: seq<Byte>) returns (s: string)
    ensures |s| == 2 * Length(b) && s == Hex(b)
  {
    var str := new char[Length(b) * 2];
    var j := 0;
    for i := 0 to |b|
      invariant j == 2 * i
      invariant forall k :: 0 <= k < j ==> str[k] == HexSymbol(b, k)
    {
      str[j] := HexTable[b[i] / 16];
      str[j + 1] := HexTable[b[i] % 16];
      j := j + 2;
    }
    s := str[..];
  }

  /** The position of a symbol in the table, or -1 for a character outside
    * it. */
  function NibbleIndex(ch: char): (r: int)
    ensures -1 <= r < 16
  {
    if '0' <= ch <= '9' then ch as int - '0' as int
    else if 'a' <= ch <= 'f' then ch as int - 'a' as int + 10
    else -1
  }

  /** NibbleIndex is strings.Index(hextable, string(ch)), the lookup Load
    * performs. */
  lemma NibbleIndexIsIndex(ch: char)
    ensures NibbleIndex(ch) == IndexChar(HexTable, ch)
  {
    HexTableChars();
    var r := NibbleIndex(ch);
    if r >= 0 {
      assert HexTable[r] == ch;
      forall p | 0 <= p < r ensures HexTable[p] != ch {
        HexCharIncreasing(p, r);
      }
      IndexCharAt(HexTable, ch, r);
    } else {
      forall n | 0 <= n < 16 ensures HexTable[n] != ch {
        assert HexTable[n] == HexChar(n);
      }
    }
  }

  /** The table is in increasing character order. */
  lemma HexCharIncreasing(p: int, q: int)
    requires 0 <= p < q < 16
    ensures HexChar(p) < HexChar(q)
  {
  }

  /** Every symbol of the table is read back as its own position. */
  lemma NibbleOfSymbol(n: int)
    requires 0 <= n < 16
    ensures NibbleIndex(HexTable[n]) == n
  {
    HexTableChars();
  }

  /** The byte Load appends for two symbols whose table positions are hi
    * and lo: byte((hi << 4) | lo) on Go's two's-complement int. A missing
    * symbol has position -1, all bits set: -1 as the low part makes the
    * whole value -1, as the high part leaves -16 + lo; the conversion to
    * byte keeps the value modulo 256. */
  function PairByte(hi: int, lo: int): (r: Byte)
    requires -1 <= hi < 16 && -1 <= lo < 16
    ensures 0 <= hi && 0 <= lo ==> r == hi * 16 + lo
    ensures lo == -1 ==> r == 255
    ensures hi == -1 && 0 <= lo ==> r == 240 + lo
  {
    (if lo == -1 then -1 else hi * 16 + lo) % 256
  }

  /** The bytes of an even-length text, one per pair of symbols. */
  function Unhex(data: string): (r: seq<Byte>)
    requires |data| % 2 == 0
    ensures 2 * |r| == |data|
    decreases |data|
  {
    if |data| == 0 then []
    else
      var n := |data|;
      Unhex(data[..n - 2]) + [PairByte(NibbleIndex(data[n - 2]), NibbleIndex(data[n - 1]))]
  }

  /** `Load`: the existing bytes are kept and one byte is appended per two
    * symbols of `data`. On an odd-length text the last step reads
    * data[i+1] past the end, and Go panics. */
  method Load(b: seq<Byte>, data: string) returns (r: Outcome<seq<Byte>>)
    ensures |data| % 2 == 0 ==> r == Done(b + Unhex(data))
    ensures |data| % 2 == 1 ==> r.Panic?
  {
    var buf := b;
    var i := 0;
    while i < |data|
      invariant 0 <= i <= |data| && i % 2 == 0
      invariant buf == b + Unhex(data[..i])
      decreases |data| - i
    {
      if i + 1 >= |data| {
        return Panic("index out of range");
      }
      var item := PairByte(NibbleIndex(data[i]), NibbleIndex(data[i + 1]));
      UnhexStep(data, i);
      buf := buf + [item];
      i := i + 2;
    }
    assert data[..i] == data;
    r := Done(buf);
  }

  /** The k-th byte of Unhex comes from symbols 2k and 2k + 1. */
  lemma {:induction false} UnhexAt(data: string, k: nat)
    requires |data| % 2 == 0 && 2 * k < |data|
    ensures Unhex(data)[k] == PairByte(NibbleIndex(data[2 * k]), NibbleIndex(data[2 * k + 1]))
    decreases |data|
  {
    var n := |data|;
    if 2 * k + 2 < n {
      UnhexAt(data[..n - 2], k);
    }
  }

  /** One more pair of symbols appends one more byte. */
  lemma UnhexStep(data: string, i: nat)
    requires i % 2 == 0 && i + 2 <= |data|
    ensures Unhex(data[..i + 2]) == Unhex(data[..i]) + [PairByte(NibbleIndex(data[i]), NibbleIndex(data[i + 1]))]
  {
    assert data[..i + 2][..i] == data[..i];
  }

  /** Reading back a written byte: the two symbols of x give x. */
  lemma PairOfSymbols(x: Byte)
    ensures PairByte(NibbleIndex(HexTable[x / 16]), NibbleIndex(HexTable[x % 16])) == x
  {
    NibbleOfSymbol(x / 16);
    NibbleOfSymbol(x % 16);
  }

  /** Round trip: loading the text of a buffer into an empty buffer gives
    * the buffer back, since both directions use the same table. */
  lemma UnhexHex(b: seq<Byte>)
    ensures |Hex(b)| % 2 == 0 && NewBuffer() + Unhex(Hex(b)) == b
  {
    var s := Hex(b);
    forall i | 0 <= i < |b|
      ensures Unhex(s)[i] == b[i]
    {
      UnhexAt(s, i);
      PairOfSymbols(b[i]);
    }
  }

  /** The buffer test: the first byte of the 46-symbol text is 0x32 and the
    * last is 0x10. */
  lemma LoadedTestText()
    ensures var d := Unhex("320c3a83c202880e83fa0814" + "320c3a83c202880e83fa10");
      |d| == 23 && d[0] == 0x32 && d[22] == 0x10
  {
    var data := "320c3a83c202880e83fa0814" + "320c3a83c202880e83fa10";
    assert |data| == 46;
    assert data[0] == '3' && data[1] == '2' && data[44] == '1' && data[45] == '0';
    assert NibbleIndex('3') == 3 && NibbleIndex('2') == 2 by {
      NibbleOfSymbol(3);
      NibbleOfSymbol(2);
    }
    assert NibbleIndex('1') == 1 && NibbleIndex('0') == 0 by {
      NibbleOfSymbol(1);
      NibbleOfSymbol(0);
    }
    UnhexAt(data, 0);
    UnhexAt(data, 22);
  }
}
