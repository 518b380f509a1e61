/** The rounds of the loop of main.c:138-156. Each round runs `line_print`
    from the cursor, which moves it to the next stop, and then judges every
    position up to that stop. A session is therefore described by the
    sequence of stops the cursor makes; what was printed and what was
    echoed in round `i` are the text and the echoes between the stop before
    it and its own stop. */
module Session {
  import opened Bytes
  import opened TextScan
  import opened Feedback

  /** The stops the cursor makes, one per round, in a session started at
      `cur`. The session stops when a scan makes no progress: at the end of
      the buffer, where main.c:138 ends the loop, or at a NUL, where the
      source's loop spins without reading input again. Every round moves
      the cursor, so there are at most as many rounds as bytes ahead. */
  function Stops(t: seq<Byte>, cur: nat): (s: seq<nat>)
    requires cur <= |t|
    ensures |s| <= |t| - cur
    decreases |t| - cur
  {
    var e := LineEnd(t, cur);
    if e == cur then [] else [e] + Stops(t, e)
  }

  /** One round, then the rest of the session from where its scan stopped. */
  lemma StopsStep(t: seq<Byte>, cur: nat)
    requires cur <= |t| && LineEnd(t, cur) != cur
    ensures Stops(t, cur) == [LineEnd(t, cur)] + Stops(t, LineEnd(t, cur))
  {
  }

  /** The first round moves the cursor from `cur` to the first stop, and
      every later round from one stop to the next: each stop is where the
      line scan from the stop before it stops, past it. */
  lemma {:induction false} StopsAreScans(t: seq<Byte>, cur: nat)
    requires cur <= |t|
    ensures var s := Stops(t, cur);
            s != [] ==> cur < s[0] && s[0] == LineEnd(t, cur)
    ensures var s := Stops(t, cur);
            forall i, j :: 0 <= i && j == i + 1 && j < |s| ==> s[i] < s[j] <= |t| && s[j] == LineEnd(t, s[i])
    decreases |t| - cur
  {
    var e := LineEnd(t, cur);
    if e != cur {
      var s, rest := Stops(t, cur), Stops(t, e);
      StopsStep(t, cur);
      StopsAreScans(t, e);
      forall i, j | 0 <= i && j == i + 1 && j < |s|
        ensures s[i] < s[j] <= |t| && s[j] == LineEnd(t, s[i])
      {
        assert s[j] == rest[i];
        if 0 < i {
          assert s[i] == rest[i - 1];
        }
      }
    }
  }

  /** No stop passes the first NUL, and the last stop is the first NUL or
      the end of the buffer. A session that starts on it has no round at
      all. */
  lemma {:induction false} StopsEndAtNul(t: seq<Byte>, cur: nat)
    requires cur <= |t|
    ensures var s := Stops(t, cur);
            forall i :: 0 <= i < |s| ==> s[i] <= FirstNul(t, cur)
    ensures Stops(t, cur) == [] <==> cur == FirstNul(t, cur)
    ensures Stops(t, cur) != [] ==> Stops(t, cur)[|Stops(t, cur)| - 1] == FirstNul(t, cur)
    decreases |t| - cur
  {
    var e := LineEnd(t, cur);
    LineEndBeforeNul(t, cur);
    if e != cur {
      var s, rest := Stops(t, cur), Stops(t, e);
      StopsStep(t, cur);
      StopsEndAtNul(t, e);
      forall i | 0 < i < |s|
        ensures s[i] <= FirstNul(t, cur)
      {
        assert s[i] == rest[i - 1];
      }
      if rest != [] {
        assert s[|s| - 1] == rest[|rest| - 1];
      }
    }
  }

  /** Every round prints a stretch of one line: it passes no NUL, and a
      newline can only be its first byte. Every stop but the last is in
      front of a newline, which the next round prints first. */
  lemma StopsAreLines(t: seq<Byte>, cur: nat)
    requires cur <= |t|
    ensures var s := Stops(t, cur);
            s != [] ==> StopsLine(t, cur, s[0])
    ensures var s := Stops(t, cur);
            forall i, j :: 0 <= i && j == i + 1 && j < |s| ==> StopsLine(t, s[i], s[j])
    ensures var s := Stops(t, cur);
            forall i :: 0 <= i < |s| - 1 ==> s[i] < |t| && t[s[i]] == NEWLINE
  {
    var s := Stops(t, cur);
    StopsAreScans(t, cur);
    if s != [] {
      LineEndStops(t, cur);
    }
    forall i, j | 0 <= i && j == i + 1 && j < |s|
      ensures StopsLine(t, s[i], s[j])
    {
      assert s[i] < s[j] <= |t| && s[j] == LineEnd(t, s[i]);
      LineEndStops(t, s[i]);
    }
    forall i | 0 <= i < |s| - 1
      ensures s[i] < |t| && t[s[i]] == NEWLINE
    {
      assert StopsLine(t, s[i], s[i + 1]);
      if 0 < i {
        assert StopsLine(t, s[i - 1], s[i]);
      }
    }
  }

  /** One more round of a session started at `c0`: it adds its stop to the
      stops, the stretch it printed to the printed text, and its echoes,
      judged with the keystrokes from `at` on, to the echoes. */
  lemma NextRound(t: seq<Byte>, keys: seq<Byte>, c0: nat, p0: nat, cur: nat, at: nat, e: nat,
                  stops: seq<nat>, printed: seq<Byte>, echoed: seq<Mark>, shown: seq<Byte>, marks: seq<Mark>)
    requires c0 <= cur <= |t| && e == LineEnd(t, cur) && e != cur && at == p0 + (cur - c0)
    requires stops + Stops(t, cur) == Stops(t, c0)
    requires printed == t[c0..cur] && shown == t[cur..e]
    requires echoed == Echo(t, c0, cur, keys, p0) && marks == Echo(t, cur, e, keys, at)
    ensures (stops + [e]) + Stops(t, e) == Stops(t, c0)
    ensures printed + shown == t[c0..e]
    ensures echoed + marks == Echo(t, c0, e, keys, p0)
  {
    StopsStep(t, cur);
    assert stops + ([e] + Stops(t, e)) == (stops + [e]) + Stops(t, e);
    assert t[c0..e] == t[c0..cur] + t[cur..e];
    EchoSplit(t, c0, cur, e, keys, p0);
  }
}
