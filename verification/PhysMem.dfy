/** Physical memory as page frames of bytes, and the 32-bit words in them. */
module PhysMem {

  const PAGE_SIZE: nat := 4096
  /** Entries in a page directory or page table. */
  const ENTRIES: nat := 1024
  const TWO32: nat := 0x1_0000_0000

  type Byte = x: int | 0 <= x < 256

  type Frame = s: seq<Byte> | |s| == PAGE_SIZE witness ZERO_FRAME

  const ZERO_FRAME: seq<Byte> := seq(PAGE_SIZE, _ => 0)

  /** Word `i` of a frame, low byte first. */
  function WordAt(f: Frame, i: nat): (w: nat)
    requires i < ENTRIES
    ensures w < TWO32
  {
    (f[4 * i] as int) + 0x100 * (f[4 * i + 1] as int)
    + 0x1_0000 * (f[4 * i + 2] as int) + 0x100_0000 * (f[4 * i + 3] as int)
  }

  function SetWord(f: Frame, i: nat, w: nat): (g: Frame)
    requires i < ENTRIES && w < TWO32
  {
    f[4 * i := w % 0x100][4 * i + 1 := w / 0x100 % 0x100]
     [4 * i + 2 := w / 0x1_0000 % 0x100][4 * i + 3 := w / 0x100_0000]
  }

  lemma {:induction false} WordBytes(w: nat)
    requires w < TWO32
    ensures w % 0x100 + 0x100 * (w / 0x100 % 0x100)
            + 0x1_0000 * (w / 0x1_0000 % 0x100) + 0x100_0000 * (w / 0x100_0000) == w
  {
    var a := w / 0x100;
    var b := w / 0x1_0000;
    assert a / 0x100 == b;
    assert b / 0x100 == w / 0x100_0000;
  }

  /** A word reads back as written, and no other word of the frame changes. */
  lemma {:induction false} WordSet(f: Frame, i: nat, w: nat, j: nat)
    requires i < ENTRIES && w < TWO32 && j < ENTRIES
    ensures WordAt(SetWord(f, i, w), j) == if j == i then w else WordAt(f, j)
  {
    WordBytes(w);
  }

  lemma {:induction false} ZeroWord(i: nat)
    requires i < ENTRIES
    ensures WordAt(ZERO_FRAME, i) == 0
  {
  }

  /** Bytes as one number, low byte first. */
  ghost function LittleEndian(s: seq<Byte>): nat {
    if s == [] then 0 else (s[0] as int) + 0x100 * LittleEndian(s[1..])
  }

  lemma {:induction false} WordIsLittleEndian(f: Frame, i: nat)
    requires i < ENTRIES
    ensures WordAt(f, i) == LittleEndian(f[4 * i..4 * i + 4])
  {
    var s := f[4 * i..4 * i + 4];
    assert s[3..][1..] == [] && s[2..][1..] == s[3..] && s[1..][1..] == s[2..];
    assert LittleEndian(s[3..]) == s[3] as int;
    assert LittleEndian(s[2..]) == (s[2] as int) + 0x100 * LittleEndian(s[3..]);
    assert LittleEndian(s[1..]) == (s[1] as int) + 0x100 * LittleEndian(s[2..]);
  }

  /** Setting a word changes its four bytes alone. */
  lemma {:induction false} WordBytesAlone(f: Frame, i: nat, w: nat, k: nat)
    requires i < ENTRIES && w < TWO32 && k < PAGE_SIZE && (k < 4 * i || k >= 4 * i + 4)
    ensures SetWord(f, i, w)[k] == f[k]
  {
  }
}
