/** The typing game of main.c: the `struct bt` buffer with its two cursors
    (main.c:43-51), `create_game` without the file I/O (main.c:59-96),
    `line_print` (main.c:98-111) and the loop of `main` that prints and judges
    (main.c:138-156). */
module Game {
  import opened Bytes
  import opened TextScan
  import opened Feedback
  import opened Session

  /** Standard input as `getchar` reads it, one byte per call. */
  class Input {
    const keys: seq<Byte>
    var pos: nat

    constructor (keys: seq<Byte>)
      ensures this.keys == keys && pos == 0
    {
      this.keys := keys;
      pos := 0;
    }

    /** `getchar`: the next byte of the stream, or EOF once it has run out. */
    method GetChar() returns (c: Key)
      modifies this`pos
      ensures pos == old(pos) + 1
      ensures c == KeyAt(keys, old(pos))
      ensures old(pos) < |keys| ==> c == keys[old(pos)]
      ensures |keys| <= old(pos) ==> c == EOF
    {
      c := if pos < |keys| then keys[pos] else EOF;
      pos := pos + 1;
    }
  }

  /** The `struct bt` of main.c:43-51: the text, the cursor up to which it
      has been printed (`curser`) and the cursor up to which it has been
      judged (`active_curser`). */
  class Game {
    const txt: array<Byte>
    var curser: nat
    var activeCurser: nat
    const size: nat

    /** The judging cursor never passes the printing cursor, which never
        passes the end of the text. */
    ghost predicate Valid()
      reads this
      ensures Valid() ==> activeCurser <= size && txt.Length == size
    {
      size == txt.Length && activeCurser <= curser <= size
    }

    /** `create_game` once the file has been read: both cursors at the start
        and `size` the length of the text. */
    constructor (contents: seq<Byte>)
      ensures Valid() && fresh(txt)
      ensures txt[..] == contents && size == |contents|
      ensures curser == 0 && activeCurser == 0
    {
      txt := new Byte[|contents|](i requires 0 <= i < |contents| => contents[i]);
      curser := 0;
      activeCurser := 0;
      size := |contents|;
    }

    /** `line_print`: print from `curser` on and move `curser` past what was
        printed, stopping in front of the next newline, at a NUL or at the
        end of the text. */
    method LinePrint() returns (shown: seq<Byte>)
      requires Valid()
      modifies this`curser
      ensures Valid()
      ensures curser == LineEnd(txt[..], old(curser))
      ensures shown == txt[old(curser)..curser]
    {
      ghost var t := txt[..];
      ghost var start := curser;
      shown := [];
      while curser < size && txt[curser] != NUL
        invariant start <= curser <= size
        invariant shown == t[start..curser]
        invariant LineEnd(t, curser) == LineEnd(t, start)
        decreases size - curser
      {
        var c := txt[curser];
        shown := shown + [c];
        curser := curser + 1;
        if curser < size && txt[curser] == NEWLINE {
          return;
        }
      }
    }

    /** The judging loop of main.c:143-155: one keystroke for every position
        from `activeCurser` up to `curser`, each echoed in the colour its
        keystroke earns. */
    method Judge(input: Input) returns (marks: seq<Mark>)
      requires Valid()
      modifies this`activeCurser, input`pos
      ensures Valid() && activeCurser == curser
      ensures input.pos == old(input.pos) + (curser - old(activeCurser))
      ensures marks == Echo(txt[..], old(activeCurser), curser, input.keys, old(input.pos))
    {
      ghost var t := txt[..];
      ghost var a0, p0 := activeCurser, input.pos;
      marks := [];
      while activeCurser < curser
        invariant a0 <= activeCurser <= curser
        invariant input.pos == p0 + (activeCurser - a0)
        invariant marks == Echo(t, a0, activeCurser, input.keys, p0)
      {
        var c := input.GetChar();
        if Matches(c, txt[activeCurser]) {
          marks := marks + [Mark(txt[activeCurser], Green)];
        } else {
          marks := marks + [Mark(txt[activeCurser], Red)];
        }
        activeCurser := activeCurser + 1;
      }
    }

    /** One pass of the loop of main.c:138-156: print the next stretch with
        `line_print`, then judge every position it revealed. */
    method Turn(input: Input) returns (shown: seq<Byte>, marks: seq<Mark>)
      requires Valid() && activeCurser == curser
      modifies this`curser, this`activeCurser, input`pos
      ensures Valid() && activeCurser == curser && txt[..] == old(txt[..])
      ensures curser == LineEnd(txt[..], old(curser))
      ensures shown == txt[old(curser)..curser]
      ensures marks == Echo(txt[..], old(curser), curser, input.keys, old(input.pos))
      ensures input.pos == old(input.pos) + (curser - old(curser))
    {
      shown := LinePrint();
      marks := Judge(input);
    }
  }

  /** How the loop of main.c:138-156 ends: the whole text judged, or stuck
      at a NUL byte at position `at`, where `line_print` no longer moves the
      cursor and the source's loop spins forever. */
  datatype Outcome = Completed | Stalled(at: nat)

  /** The loop of `main` (main.c:138-156), from a game whose cursors stand
      together as `create_game` leaves them: `stops` are the positions the
      cursor stops at, one per round, `printed` everything `line_print`
      printed and `echoed` every echo of the judging loop, in order. The
      loop that the source would run forever at a NUL is cut short when a
      scan makes no progress. */
  method Play(game: Game, input: Input) returns (outcome: Outcome, stops: seq<nat>, printed: seq<Byte>, echoed: seq<Mark>)
    requires game.Valid() && game.activeCurser == game.curser
    modifies game`curser, game`activeCurser, input`pos
    ensures game.Valid() && game.activeCurser == game.curser
    ensures game.curser == FirstNul(game.txt[..], old(game.curser))
    ensures outcome == if game.curser == game.size then Completed else Stalled(game.curser)
    ensures input.pos == old(input.pos) + (game.curser - old(game.curser))
    ensures stops == Stops(game.txt[..], old(game.curser))
    ensures printed == game.txt[old(game.curser)..game.curser]
    ensures echoed == Echo(game.txt[..], old(game.curser), game.curser, input.keys, old(input.pos))
  {
    ghost var t := game.txt[..];
    ghost var c0 := game.curser;
    ghost var p0 := input.pos;
    stops, printed, echoed := [], [], [];
    while game.curser != game.size
      invariant game.Valid() && game.activeCurser == game.curser
      invariant game.txt[..] == t
      invariant c0 <= game.curser <= FirstNul(t, c0)
      invariant FirstNul(t, game.curser) == FirstNul(t, c0)
      invariant input.pos == p0 + (game.curser - c0)
      invariant stops + Stops(t, game.curser) == Stops(t, c0)
      invariant printed == t[c0..game.curser]
      invariant echoed == Echo(t, c0, game.curser, input.keys, p0)
      decreases game.size - game.curser
    {
      ghost var cur, at := game.curser, input.pos;
      LineEndBeforeNul(t, cur);
      var shown, marks := game.Turn(input);
      if shown == [] {
        outcome := Stalled(game.curser);
        return;
      }
      NextRound(t, input.keys, c0, p0, cur, at, game.curser, stops, printed, echoed, shown, marks);
      stops := stops + [game.curser];
      printed := printed + shown;
      echoed := echoed + marks;
    }
    outcome := Completed;
  }
}
