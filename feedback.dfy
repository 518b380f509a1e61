/** How the judging loop of main.c:143-155 colours one position of the text:
    the reference byte is echoed green when the keystroke equals it and red
    otherwise. */
module Feedback {
  import opened Bytes

  datatype Colour = Green | Red

  /** One echoed position: the reference byte and its colour. */
  datatype Mark = Mark(ch: Byte, colour: Colour)

  /** The comparison of main.c:147, with the keystroke and the reference byte
      both taken as unsigned byte values; EOF matches no byte. */
  predicate Matches(c: Key, b: Byte)
    ensures Matches(c, b) ==> 0 <= c
    ensures c == EOF ==> !Matches(c, b)
  {
    c == b
  }

  /** The echo of main.c:147-154 for reference byte `b` and keystroke `c`:
      always the reference byte, green exactly when the keystroke is that
      byte. */
  function Verdict(c: Key, b: Byte): (m: Mark)
    ensures m.ch == b
    ensures m.colour == Green <==> c == b
    ensures c == EOF ==> m.colour == Red
  {
    Mark(b, if Matches(c, b) then Green else Red)
  }

  /** The `j`-th byte of the input stream `keys`, as `getchar` returns it;
      a stream that has run out yields EOF. */
  function KeyAt(keys: seq<Byte>, j: nat): (k: Key)
    ensures k == EOF <==> |keys| <= j
    ensures j < |keys| ==> k == keys[j]
  {
    if j < |keys| then keys[j] else EOF
  }

  /** The echoes of positions `lo .. hi` of the text when the keystroke for
      position `lo` is the one at index `at` of the input stream and each
      further position takes the next keystroke. */
  function Echo(t: seq<Byte>, lo: nat, hi: nat, keys: seq<Byte>, at: nat): (ms: seq<Mark>)
    requires lo <= hi <= |t|
    ensures |ms| == hi - lo
    decreases hi - lo
  {
    if lo == hi then []
    else Echo(t, lo, hi - 1, keys, at) + [Verdict(KeyAt(keys, at + (hi - 1 - lo)), t[hi - 1])]
  }

  /** What the echoes mean: one per position, in order, each showing the
      reference byte whatever was typed, green exactly when its keystroke
      equals that byte. */
  lemma {:induction false} EchoMeaning(t: seq<Byte>, lo: nat, hi: nat, keys: seq<Byte>, at: nat)
    requires lo <= hi <= |t|
    ensures forall j :: 0 <= j < hi - lo ==> Echo(t, lo, hi, keys, at)[j].ch == t[lo + j]
    ensures forall j :: 0 <= j < hi - lo ==>
              (Echo(t, lo, hi, keys, at)[j].colour == Green <==> KeyAt(keys, at + j) == t[lo + j])
    decreases hi - lo
  {
    if lo < hi {
      EchoMeaning(t, lo, hi - 1, keys, at);
    }
  }

  /** Judging `lo .. mid` and then `mid .. hi` with the keystrokes that follow
      is judging `lo .. hi` in one go. */
  lemma {:induction false} EchoSplit(t: seq<Byte>, lo: nat, mid: nat, hi: nat, keys: seq<Byte>, at: nat)
    requires lo <= mid <= hi <= |t|
    ensures Echo(t, lo, mid, keys, at) + Echo(t, mid, hi, keys, at + (mid - lo)) == Echo(t, lo, hi, keys, at)
    decreases hi - mid
  {
    if mid < hi {
      EchoSplit(t, lo, mid, hi - 1, keys, at);
    }
  }

  /** Every keystroke of a stretch was judged correct. */
  predicate AllGreen(ms: seq<Mark>)
  {
    forall j :: 0 <= j < |ms| ==> ms[j].colour == Green
  }

  /** The keystrokes from `at` on spell out `t[lo..hi]` exactly. */
  predicate TypedExactly(t: seq<Byte>, lo: nat, hi: nat, keys: seq<Byte>, at: nat)
    requires lo <= hi <= |t|
  {
    lo == hi || (at + (hi - lo) <= |keys| && keys[at..at + (hi - lo)] == t[lo..hi])
  }

  /**
   * A stretch shows all green exactly when the player typed it without a
   * slip and without running out of input.
   */
  lemma AllGreenIffTypedExactly(t: seq<Byte>, lo: nat, hi: nat, keys: seq<Byte>, at: nat)
    requires lo <= hi <= |t|
    ensures AllGreen(Echo(t, lo, hi, keys, at)) <==> TypedExactly(t, lo, hi, keys, at)
  {
    var ms := Echo(t, lo, hi, keys, at);
    EchoMeaning(t, lo, hi, keys, at);
    if lo < hi {
      if AllGreen(ms) {
        assert ms[hi - lo - 1].colour == Green;
        assert KeyAt(keys, at + (hi - lo - 1)) == t[hi - 1];
        forall j | 0 <= j < hi - lo
          ensures keys[at..at + (hi - lo)][j] == t[lo..hi][j]
        {
          assert ms[j].colour == Green;
        }
      }
      if TypedExactly(t, lo, hi, keys, at) {
        forall j | 0 <= j < hi - lo
          ensures ms[j].colour == Green
        {
          assert keys[at..at + (hi - lo)][j] == t[lo..hi][j];
        }
      }
    }
  }

  /** A player who types the text itself, starting at the position being
      judged, sees every position green. */
  lemma TypingTheTextIsAllGreen(t: seq<Byte>, lo: nat, hi: nat)
    requires lo <= hi <= |t|
    ensures AllGreen(Echo(t, lo, hi, t, lo))
  {
    AllGreenIffTypedExactly(t, lo, hi, t, lo);
  }
}
