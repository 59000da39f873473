/** The line editor and its queues: src/input.rs. */
module InputModel {
  import opened Machine

  const MAX_LINE_LEN := 128
  const MAX_QUEUE_DEPTH := 8
  const MAX_HISTORY := 16

  datatype SpecialKey =
    | UpArrow | DownArrow | LeftArrow | RightArrow | Home | End | Escape | FunctionKey(n: byte)

  datatype Op = PushChar(ch: char) | Backspace | Special(key: SpecialKey) | CommitLine | PopLine

  datatype State = State(line: string, ready: seq<string>, history: seq<string>)

  const EMPTY := State("", [], [])

  /** A bounded queue: adding to a full one drops its oldest entry. */
  function Enqueue(q: seq<string>, depth: nat, s: string): seq<string>
    requires depth > 0
  {
    (if |q| >= depth then q[1..] else q) + [s]
  }

  function Step(s: State, op: Op): State {
    match op
    case PushChar(ch) => if |s.line| < MAX_LINE_LEN then s.(line := s.line + [ch]) else s
    case Backspace => if s.line == "" then s else s.(line := s.line[..|s.line| - 1])
    case Special(key) =>
      if key.UpArrow? && s.history != [] then s.(line := s.history[|s.history| - 1])
      else if key.Escape? then s.(line := "")
      else s
    case CommitLine =>
      State("", Enqueue(s.ready, MAX_QUEUE_DEPTH, s.line),
            if s.line == "" then s.history else Enqueue(s.history, MAX_HISTORY, s.line))
    case PopLine => if s.ready == [] then s else s.(ready := s.ready[1..])
  }

  function After(ops: seq<Op>): State
    decreases |ops|
  {
    if ops == [] then EMPTY else Step(After(ops[..|ops| - 1]), ops[|ops| - 1])
  }

  // ---- What a run did ----

  /** Every line committed, in order. */
  function Committed(ops: seq<Op>): seq<string>
    decreases |ops|
  {
    if ops == [] then []
    else
      var n := |ops| - 1;
      Committed(ops[..n]) + (if ops[n].CommitLine? then [After(ops[..n]).line] else [])
  }

  /** Every line popped, in order. */
  function Popped(ops: seq<Op>): seq<string>
    decreases |ops|
  {
    if ops == [] then []
    else
      var n := |ops| - 1;
      var ready := After(ops[..n]).ready;
      Popped(ops[..n]) + (if ops[n].PopLine? && ready != [] then [ready[0]] else [])
  }

  /** Which commits the popped lines came from. */
  function PoppedAt(ops: seq<Op>): seq<int>
    decreases |ops|
  {
    if ops == [] then []
    else
      var n := |ops| - 1;
      var ready := After(ops[..n]).ready;
      PoppedAt(ops[..n]) + (if ops[n].PopLine? && ready != [] then [|Committed(ops[..n])| - |ready|] else [])
  }

  /** Which commits were dropped by a full queue. */
  function LostAt(ops: seq<Op>): seq<int>
    decreases |ops|
  {
    if ops == [] then []
    else
      var n := |ops| - 1;
      var ready := After(ops[..n]).ready;
      LostAt(ops[..n])
        + (if ops[n].CommitLine? && |ready| >= MAX_QUEUE_DEPTH then [|Committed(ops[..n])| - |ready|] else [])
  }

  function LastOf(q: seq<string>, n: nat): seq<string> {
    if |q| > n then q[|q| - n..] else q
  }

  function NonEmpty(ss: seq<string>): seq<string>
    decreases |ss|
  {
    if ss == [] then []
    else NonEmpty(ss[..|ss| - 1]) + (if ss[|ss| - 1] == "" then [] else [ss[|ss| - 1]])
  }

  predicate Increasing(q: seq<int>) {
    forall i, j | 0 <= i < j < |q| :: q[i] < q[j]
  }

  predicate IsTail(q: seq<string>, c: seq<string>) {
    |q| <= |c| && q == c[|c| - |q|..]
  }

  lemma TailMoves(q: seq<string>, c: seq<string>, s: string)
    requires IsTail(q, c)
    ensures IsTail(q + [s], c + [s])
    ensures q != [] ==> IsTail(q[1..], c)
  {
  }

  /** The pending lines are always the latest commits, and never more than 8. */
  lemma {:induction false} PendingIsSuffix(ops: seq<Op>)
    ensures |After(ops).ready| <= 8 && IsTail(After(ops).ready, Committed(ops))
    decreases |ops|
  {
    if ops != [] {
      var n := |ops| - 1;
      var s, c := After(ops[..n]), Committed(ops[..n]);
      PendingIsSuffix(ops[..n]);
      TailMoves(s.ready, c, s.line);
      if ops[n].CommitLine? && |s.ready| >= MAX_QUEUE_DEPTH {
        TailMoves(s.ready[1..], c, s.line);
      }
      assert Committed(ops) == if ops[n].CommitLine? then c + [s.line] else c;
    }
  }

  /** Lines are popped in the order of their commits, each from its own commit. */
  lemma {:induction false} PoppedInOrder(ops: seq<Op>)
    ensures |PoppedAt(ops)| == |Popped(ops)| && Increasing(PoppedAt(ops))
    ensures forall k | 0 <= k < |Popped(ops)| ::
              && 0 <= PoppedAt(ops)[k] < |Committed(ops)| - |After(ops).ready|
              && Popped(ops)[k] == Committed(ops)[PoppedAt(ops)[k]]
    decreases |ops|
  {
    if ops != [] {
      var n := |ops| - 1;
      PoppedInOrder(ops[..n]);
      PendingIsSuffix(ops[..n]);
    }
  }

  /** Every commit is popped, lost or still pending, and only one of these; it is lost only when 8
      later lines were committed before it was popped. */
  lemma {:induction false} EveryCommitAccounted(ops: seq<Op>, i: nat)
    requires i < |Committed(ops)|
    ensures var pending := |Committed(ops)| - |After(ops).ready|;
            && (i in PoppedAt(ops) || i in LostAt(ops) <==> i < pending)
            && !(i in PoppedAt(ops) && i in LostAt(ops))
            && (i in LostAt(ops) ==> i + MAX_QUEUE_DEPTH < |Committed(ops)|)
    decreases |ops|
  {
    if ops != [] {
      var n := |ops| - 1;
      PendingIsSuffix(ops[..n]);
      PendingIsSuffix(ops);
      if i < |Committed(ops[..n])| {
        EveryCommitAccounted(ops[..n], i);
      } else {
        IndicesBounded(ops[..n]);
      }
    }
  }

  lemma {:induction false} IndicesBounded(ops: seq<Op>)
    ensures forall i | i in PoppedAt(ops) || i in LostAt(ops) :: 0 <= i < |Committed(ops)|
    decreases |ops|
  {
    if ops != [] {
      var n := |ops| - 1;
      IndicesBounded(ops[..n]);
      PendingIsSuffix(ops[..n]);
      var oldest := |Committed(ops[..n])| - |After(ops[..n]).ready|;
      forall i | i in PoppedAt(ops) || i in LostAt(ops)
        ensures 0 <= i < |Committed(ops)|
      {
        assert i in PoppedAt(ops[..n]) || i in LostAt(ops[..n])
          || (i == oldest && ((ops[n].PopLine? && After(ops[..n]).ready != []) || ops[n].CommitLine?));
      }
    }
  }

  lemma EnqueueKeepsLast(q: seq<string>, depth: nat, s: string)
    requires depth > 0
    ensures Enqueue(LastOf(q, depth), depth, s) == LastOf(q + [s], depth)
  {
  }

  /** The history is the last 16 non-empty commits. */
  lemma {:induction false} HistoryIsLastCommits(ops: seq<Op>)
    ensures After(ops).history == LastOf(NonEmpty(Committed(ops)), 16)
    decreases |ops|
  {
    if ops != [] {
      var n := |ops| - 1;
      var s := After(ops[..n]);
      HistoryIsLastCommits(ops[..n]);
      var c := Committed(ops[..n]);
      if ops[n].CommitLine? {
        assert Committed(ops) == c + [s.line] && (c + [s.line])[..|c|] == c;
        EnqueueKeepsLast(NonEmpty(c), MAX_HISTORY, s.line);
        assert s.line == "" ==> NonEmpty(c) + [] == NonEmpty(c);
      } else {
        assert Committed(ops) == c;
      }
    }
  }

  // ---- Typing and reading ----

  lemma OneMoreOp(ops: seq<Op>, op: Op)
    ensures After(ops + [op]) == Step(After(ops), op)
  {
    assert (ops + [op])[..|ops|] == ops;
  }

  lemma OneMoreResult(ops: seq<Op>, op: Op)
    ensures Committed(ops + [op]) == Committed(ops) + (if op.CommitLine? then [After(ops).line] else [])
    ensures Popped(ops + [op])
         == Popped(ops) + (if op.PopLine? && After(ops).ready != [] then [After(ops).ready[0]] else [])
  {
    assert (ops + [op])[..|ops|] == ops;
  }

  function Pushes(s: string): (ops: seq<Op>)
    ensures |ops| == |s|
  {
    seq(|s|, i requires 0 <= i < |s| => PushChar(s[i]))
  }

  /** What a line keeps of what is typed. */
  function Cut(s: string): string {
    if |s| <= 128 then s else s[..128]
  }

  lemma CutMore(line: string, s: string, ch: char)
    ensures Cut(line + (s + [ch])) == if |Cut(line + s)| < 128 then Cut(line + s) + [ch] else Cut(line + s)
  {
    assert line + (s + [ch]) == (line + s) + [ch];
  }

  lemma PushMore(ops: seq<Op>, s: string, n: nat)
    requires |s| == n + 1
    ensures ops + Pushes(s) == (ops + Pushes(s[..n])) + [PushChar(s[n])] && s == s[..n] + [s[n]]
  {
  }

  /** Characters typed go to the end of the line, in order, until it holds 128. */
  lemma {:induction false} TypingAppends(ops: seq<Op>, s: string)
    ensures After(ops + Pushes(s)) == After(ops).(line := Cut(After(ops).line + s))
    decreases |s|
  {
    var line := After(ops).line;
    if s == "" {
      LinesBounded(ops);
      assert ops + Pushes(s) == ops && line + s == line;
    } else {
      var n := |s| - 1;
      TypingAppends(ops, s[..n]);
      PushMore(ops, s, n);
      OneMoreOp(ops + Pushes(s[..n]), PushChar(s[n]));
      CutMore(line, s[..n], s[n]);
    }
  }

  lemma {:induction false} TypingGivesNothing(ops: seq<Op>, s: string)
    ensures Committed(ops + Pushes(s)) == Committed(ops) && Popped(ops + Pushes(s)) == Popped(ops)
    decreases |s|
  {
    if s == "" {
      assert ops + Pushes(s) == ops;
    } else {
      var n := |s| - 1;
      TypingGivesNothing(ops, s[..n]);
      PushMore(ops, s, n);
      OneMoreResult(ops + Pushes(s[..n]), PushChar(s[n]));
    }
  }

  /** A backspace takes back the character before it, exactly when that character was taken. */
  lemma BackspaceTakesBack(ops: seq<Op>, ch: char)
    ensures After(ops + [PushChar(ch), Backspace]) == After(ops) <==> |After(ops).line| < 128
  {
    LinesBounded(ops);
    OneMoreOp(ops, PushChar(ch));
    OneMoreOp(ops + [PushChar(ch)], Backspace);
    assert ops + [PushChar(ch), Backspace] == (ops + [PushChar(ch)]) + [Backspace];
  }

  /** The up arrow puts the latest non-empty commit, if there is one, in the place of the line. */
  lemma UpRecallsLastCommit(ops: seq<Op>)
    ensures var c := NonEmpty(Committed(ops));
            After(ops + [Special(UpArrow)]) == After(ops).(line := if c == [] then After(ops).line else c[|c| - 1])
  {
    OneMoreOp(ops, Special(UpArrow));
    HistoryIsLastCommits(ops);
    LastOfLast(NonEmpty(Committed(ops)), 16);
  }

  lemma LastOfLast(q: seq<string>, n: nat)
    requires n > 0
    ensures LastOf(q, n) == [] <==> q == []
    ensures q != [] ==> LastOf(q, n)[|LastOf(q, n)| - 1] == q[|q| - 1]
  {
  }

  /** Lines typed and committed, one after another. */
  function TypedLines(ls: seq<string>): seq<Op>
    decreases |ls|
  {
    if ls == [] then [] else TypedLines(ls[..|ls| - 1]) + Pushes(ls[|ls| - 1]) + [CommitLine]
  }

  function CutAll(ls: seq<string>): (cs: seq<string>)
    ensures |cs| == |ls|
  {
    seq(|ls|, i requires 0 <= i < |ls| => Cut(ls[i]))
  }

  /** Every line typed is committed as typed, cut to 128 characters; the last 8 of them are pending,
      and the next line starts empty. */
  lemma {:induction false} LinesAreCommitted(ls: seq<string>)
    ensures var ops := TypedLines(ls);
            && Committed(ops) == CutAll(ls) && After(ops).line == "" && Popped(ops) == []
            && After(ops).ready == LastOf(CutAll(ls), 8)
    decreases |ls|
  {
    if ls != [] {
      var n := |ls| - 1;
      var typed := TypedLines(ls[..n]) + Pushes(ls[n]);
      LinesAreCommitted(ls[..n]);
      TypingAppends(TypedLines(ls[..n]), ls[n]);
      TypingGivesNothing(TypedLines(ls[..n]), ls[n]);
      OneMoreOp(typed, CommitLine);
      OneMoreResult(typed, CommitLine);
      assert "" + ls[n] == ls[n];
      assert CutAll(ls) == CutAll(ls[..n]) + [Cut(ls[n])];
      EnqueueKeepsLast(CutAll(ls[..n]), 8, Cut(ls[n]));
    }
  }

  function Pops(n: nat): (ops: seq<Op>)
    ensures |ops| == n
  {
    seq(n, _ => PopLine)
  }

  function Front(q: seq<string>, n: nat): seq<string> {
    if n <= |q| then q[..n] else q
  }

  lemma FirstPop(ops: seq<Op>, n: nat)
    requires n > 0
    ensures ops + Pops(n) == (ops + [PopLine]) + Pops(n - 1)
  {
  }

  lemma FrontFromFirst(before: seq<string>, q: seq<string>, n: nat)
    requires n > 0 && q != []
    ensures (before + [q[0]]) + Front(q[1..], n - 1) == before + Front(q, n)
  {
  }

  /** Pops return the pending lines from the front, until there are none. */
  lemma {:induction false} PopsReturn(ops: seq<Op>, n: nat)
    ensures Popped(ops + Pops(n)) == Popped(ops) + Front(After(ops).ready, n)
    decreases n
  {
    var ready := After(ops).ready;
    if n == 0 {
      assert ops + Pops(0) == ops;
    } else {
      FirstPop(ops, n);
      OneMoreOp(ops, PopLine);
      OneMoreResult(ops, PopLine);
      PopsReturn(ops + [PopLine], n - 1);
      if ready != [] {
        FrontFromFirst(Popped(ops), ready, n);
      }
    }
  }

  /** No line is ever longer than 128 characters, not even one recalled from the history. */
  lemma {:induction false} LinesBounded(ops: seq<Op>)
    ensures |After(ops).line| <= 128
    ensures forall l | l in After(ops).ready || l in After(ops).history :: |l| <= 128
    decreases |ops|
  {
    if ops != [] {
      var n := |ops| - 1;
      LinesBounded(ops[..n]);
      var s, t := After(ops[..n]), After(ops);
      assert forall l | l in t.ready :: l in s.ready || l == s.line;
      assert forall l | l in t.history :: l in s.history || l == s.line;
      if s.history != [] {
        assert s.history[|s.history| - 1] in s.history;
      }
    }
  }
}

module Input {
  import opened Machine
  import opened InputModel

  class InputBuffer {
    var line: string
    var readyLines: seq<string>
    var history: seq<string>

    ghost function Now(): State
      reads this
    {
      State(line, readyLines, history)
    }

    constructor ()
      ensures Now() == EMPTY
    {
      line, readyLines, history := "", [], [];
    }

    method PushChar(ch: char)
      modifies this
      ensures Now() == Step(old(Now()), Op.PushChar(ch))
    {
      if |line| < MAX_LINE_LEN {
        line := line + [ch];
      }
    }

    method Backspace() returns (erased: bool)
      modifies this
      ensures Now() == Step(old(Now()), Op.Backspace) && (erased <==> old(line) != "")
    {
      erased := |line| > 0;
      if erased {
        line := line[..|line| - 1];
      }
    }

    method HandleSpecialKey(key: SpecialKey)
      modifies this
      ensures Now() == Step(old(Now()), Special(key))
      ensures line == if key == UpArrow && old(history) != [] then old(history)[|old(history)| - 1]
                      else if key == Escape then "" else old(line)
    {
      match key
      case UpArrow =>
        if |history| > 0 {
          var prev := history[|history| - 1];
          line := "";
          for i := 0 to |prev|
            invariant line == prev[..i]
            invariant readyLines == old(readyLines) && history == old(history)
          {
            line := line + [prev[i]];
          }
          assert prev[..|prev|] == prev;
        }
      case Escape =>
        line := "";
      case _ =>
    }

    method CommitLine()
      modifies this
      ensures Now() == Step(old(Now()), Op.CommitLine)
    {
      var committed := "";
      while line != ""
        invariant committed + line == old(line)
        invariant readyLines == old(readyLines) && history == old(history)
        decreases |line|
      {
        committed := committed + [line[0]];
        line := line[1..];
      }
      assert committed == old(line);
      if committed != "" {
        if |history| >= MAX_HISTORY {
          history := history[1..];
        }
        history := history + [committed];
      }
      if |readyLines| >= MAX_QUEUE_DEPTH {
        readyLines := readyLines[1..];
      }
      readyLines := readyLines + [committed];
    }

    method PopLine() returns (r: Option<string>)
      modifies this
      ensures Now() == Step(old(Now()), Op.PopLine)
      ensures r == if old(readyLines) == [] then None else Some(old(readyLines)[0])
    {
      if readyLines == [] {
        return None;
      }
      r := Some(readyLines[0]);
      readyLines := readyLines[1..];
    }
  }

  /** A new buffer, put through any sequence of operations. */
  method Perform(ops: seq<Op>) returns (buffer: InputBuffer, popped: seq<string>)
    ensures fresh(buffer) && buffer.Now() == After(ops) && popped == Popped(ops)
  {
    buffer := new InputBuffer();
    popped := [];
    for i := 0 to |ops|
      invariant fresh(buffer) && buffer.Now() == After(ops[..i]) && popped == Popped(ops[..i])
    {
      assert ops[..i + 1][..i] == ops[..i];
      match ops[i] {
        case PushChar(ch) => buffer.PushChar(ch);
        case Backspace => var _ := buffer.Backspace();
        case Special(key) => buffer.HandleSpecialKey(key);
        case CommitLine => buffer.CommitLine();
        case PopLine =>
          var line := buffer.PopLine();
          if line.Some? {
            popped := popped + [line.value];
          }
      }
    }
    assert ops[..|ops|] == ops;
  }

  /** Lines typed into a new buffer come back as typed, in order, each cut to 128 characters: all of
      them up to 8, and of more the last 8. */
  method TypeAndRead(ls: seq<string>) returns (lines: seq<string>)
    ensures lines == LastOf(CutAll(ls), 8)
  {
    var ops := TypedLines(ls) + Pops(8);
    LinesAreCommitted(ls);
    PopsReturn(TypedLines(ls), 8);
    var _, popped := Perform(ops);
    lines := popped;
    assert [] + LastOf(CutAll(ls), 8) == LastOf(CutAll(ls), 8);
    assert Front(LastOf(CutAll(ls), 8), 8) == LastOf(CutAll(ls), 8);
  }
}
