/** How `line_print` scans the text buffer (main.c:98-111): from the cursor
    it emits bytes until the next byte is a newline, or until the scan meets
    a NUL byte or the end of the buffer. */
module TextScan {
  import opened Bytes

  /** Where the scan that `line_print` performs from `from` stops: the
      recursion follows the loop of main.c:100-110 one byte at a time. The
      end of the buffer stops the scan as a NUL would. */
  function LineEnd(t: seq<Byte>, from: nat): (e: nat)
    requires from <= |t|
    ensures from <= e <= |t|
    ensures from < |t| && t[from] != NUL ==> from < e
    decreases |t| - from
  {
    if from == |t| || t[from] == NUL then from
    else if from + 1 < |t| && t[from + 1] == NEWLINE then from + 1
    else LineEnd(t, from + 1)
  }

  /** The declarative description of a stop of the line scan: no NUL is
      passed, no newline is passed except one at the starting position, and
      the scan stands at the end of the buffer, at a NUL, or in front of a
      newline it has not emitted. */
  predicate StopsLine(t: seq<Byte>, from: nat, e: nat)
  {
    && from <= e <= |t|
    && (forall k :: from <= k < e ==> t[k] != NUL)
    && (forall k :: from < k < e ==> t[k] != NEWLINE)
    && (e == |t| || t[e] == NUL || (from < e && t[e] == NEWLINE))
  }

  /** The scan stops where the declarative description says it may. */
  lemma {:induction false} LineEndStops(t: seq<Byte>, from: nat)
    requires from <= |t|
    ensures StopsLine(t, from, LineEnd(t, from))
    decreases |t| - from
  {
    if from == |t| || t[from] == NUL {
    } else if from + 1 < |t| && t[from + 1] == NEWLINE {
    } else {
      LineEndStops(t, from + 1);
    }
  }

  /** ... and nowhere else: the stop position is the only one that fits the
      description. */
  lemma LineEndCharacterized(t: seq<Byte>, from: nat, e: nat)
    requires from <= |t|
    ensures StopsLine(t, from, e) <==> e == LineEnd(t, from)
  {
    LineEndStops(t, from);
  }

  /** The position of the first NUL at or after `from`, or the end of the
      buffer when there is none. */
  function FirstNul(t: seq<Byte>, from: nat): (p: nat)
    requires from <= |t|
    ensures from <= p <= |t|
    ensures p == |t| || t[p] == NUL
    decreases |t| - from
  {
    if from == |t| || t[from] == NUL then from else FirstNul(t, from + 1)
  }

  /** No NUL comes before the first NUL. */
  lemma {:induction false} FirstNulIsFirst(t: seq<Byte>, from: nat)
    requires from <= |t|
    ensures forall k :: from <= k < FirstNul(t, from) ==> t[k] != NUL
    decreases |t| - from
  {
    if from < |t| && t[from] != NUL {
      FirstNulIsFirst(t, from + 1);
    }
  }

  /** A scan never passes the first NUL, makes progress exactly when it does
      not start on the end or on a NUL, and leaves the first NUL ahead of it
      where it was. */
  lemma LineEndBeforeNul(t: seq<Byte>, from: nat)
    requires from <= |t|
    ensures LineEnd(t, from) <= FirstNul(t, from)
    ensures LineEnd(t, from) == from <==> from == FirstNul(t, from)
    ensures FirstNul(t, LineEnd(t, from)) == FirstNul(t, from)
  {
    LineEndStops(t, from);
    FirstNulAfter(t, from, LineEnd(t, from));
  }

  /** Moving the start of the search over bytes that are not NUL does not
      move the first NUL. */
  lemma {:induction false} FirstNulAfter(t: seq<Byte>, from: nat, mid: nat)
    requires from <= |t| && from <= mid <= FirstNul(t, from)
    ensures FirstNul(t, mid) == FirstNul(t, from)
    decreases mid - from
  {
    if from < mid {
      FirstNulIsFirst(t, from);
      FirstNulAfter(t, from + 1, mid);
    }
  }
}
