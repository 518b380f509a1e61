/** Two places where main.c does not do what it evidently means to, each
    modelled as written next to the corrected behaviour that the rest of the
    model uses. */
module AsWritten {
  import opened Bytes
  import opened TextScan
  import opened Feedback

  /** The scan of main.c:100-110 as written. It tests `txt[curser]` after
      every step without comparing the cursor with `size`, so at the end of
      the buffer it goes on reading whatever memory follows. `mem` is the
      buffer followed by that memory, up to and including some NUL, which
      is where the scan is bound to stop at the latest. */
  function ScanAsWritten(mem: seq<Byte>, from: nat): (e: nat)
    requires from < |mem| && mem[|mem| - 1] == NUL
    ensures from <= e < |mem|
    ensures mem[e] == NUL || (from < e && mem[e] == NEWLINE)
    ensures forall k :: from <= k < e ==> mem[k] != NUL
    decreases |mem| - from
  {
    if mem[from] == NUL then from
    else if mem[from + 1] == NEWLINE then from + 1
    else ScanAsWritten(mem, from + 1)
  }

  /** A one-byte buffer "a" followed in memory by "x" and a NUL: the scan
      as written moves the cursor to 2, past `size` = 1, after which the
      loop `curser != size` of main.c:138 no longer ends at the end of the
      text. The bounded scan stops at 1. Only a newline right after the
      buffer stops the scan as written at `size` as well. */
  lemma ScanOverrunsBuffer()
    ensures LineEnd([97], 0) == 1
    ensures ScanAsWritten([97, 120, 0], 0) == 2
    ensures ScanAsWritten([97, 10, 0], 0) == 1
  {
    assert ScanAsWritten([97, 120, 0], 1) == 2;
  }

  /** When the buffer is followed by a NUL, the scan as written stops where
      the bounded scan does. */
  lemma {:induction false} ScanAsWrittenWithTerminator(t: seq<Byte>, from: nat)
    requires from <= |t|
    ensures ScanAsWritten(t + [NUL], from) == LineEnd(t, from)
    decreases |t| - from
  {
    var mem := t + [NUL];
    if from < |t| && t[from] != NUL {
      assert mem[from] == t[from];
      if from + 1 < |t| {
        assert mem[from + 1] == t[from + 1];
        if t[from + 1] != NEWLINE {
          ScanAsWrittenWithTerminator(t, from + 1);
        }
      } else {
        assert mem[from + 1] == NUL;
      }
    } else if from == |t| {
      assert mem[from] == NUL;
    }
  }

  /** A text byte as the `char` of main.c:48 holds it where `char` is
      signed: bytes from 128 on read as negative numbers. */
  function SignedChar(b: Byte): (c: int)
    ensures -128 <= c < 128
    ensures c == b <==> b < 128
  {
    if b < 128 then b else b - 256
  }

  /** The comparison of main.c:147 as written: the `int` from `getchar` is
      compared with the signed `char`. It agrees with the intended
      comparison on the ASCII bytes, and on every other byte it only ever
      holds for EOF against the byte 0xFF. */
  function MatchesAsWritten(c: Key, b: Byte): (m: bool)
    ensures b < 128 ==> (m <==> Matches(c, b))
    ensures 128 <= b ==> (m <==> c == EOF && b == 255)
  {
    c == SignedChar(b)
  }

  /** Typing the byte 0xC3 (the lead byte of a two-byte UTF-8 letter)
      correctly is judged wrong, and running out of input on the byte 0xFF
      is judged right. */
  lemma SignednessMisjudges()
    ensures Matches(0xC3, 0xC3) && !MatchesAsWritten(0xC3, 0xC3)
    ensures !Matches(EOF, 0xFF) && MatchesAsWritten(EOF, 0xFF)
  {
  }
}
