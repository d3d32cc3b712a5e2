/** The interactive walk through the mansion: one-character commands move the
    player left ('e'), right ('d') or out ('s'); every visit is logged. */
module Exploration {
  import opened Rooms

  /** Number of entries of the fixed visit log. */
  const LOG_CAPACITY: nat := 20

  /** Why a walk ended. */
  datatype Stop =
    | DeadEnd     // reached a room without exits
    | Quit        // read the command 's'
    | OutOfInput  // no command left to read
    | NoRoom      // started at a null room: nothing was visited

  /** The unbounded course of a walk: the rooms in visiting order (one per
      loop iteration, repeats included) and why it ended. */
  datatype Run = Run(rooms: seq<Tree>, stop: Stop)

  /** What the exploration reports: the finished visit log, or the fact that
      the next visit would have been written past the last log entry (with the
      entries written until then). */
  datatype Outcome =
    | Finished(log: seq<string>, stop: Stop)
    | LogOverflow(written: seq<string>)

  /** The names of a sequence of rooms. */
  function LogOf(rooms: seq<Tree>): (names: seq<string>)
    ensures |names| == |rooms|
    ensures forall k :: 0 <= k < |rooms| ==> names[k] == rooms[k].name
  {
    seq(|rooms|, k requires 0 <= k < |rooms| => rooms[k].name)
  }

  /** The room after one movement command: 'e' and 'd' take the left and
      right exit when it exists; any other command, or a missing exit,
      leaves the player where they are. */
  function Step(t: Tree, c: char): (next: Tree)
    ensures next == t || Some(next) == t.left || Some(next) == t.right
    ensures next != t <==> (c == 'e' && t.left.Some?) || (c == 'd' && t.right.Some?)
  {
    if c == 'e' && t.left.Some? then t.left.value
    else if c == 'd' && t.right.Some? then t.right.value
    else t
  }

  /** The walk that starts in room `t` and reads its commands from `cmds`:
      each round logs the current room, ends at a room without exits, ends
      when the commands run out, ends on 's', and otherwise moves by `Step`. */
  function Walk(t: Tree, cmds: seq<char>): (r: Run)
    ensures |r.rooms| >= 1 && r.rooms[0] == t
    ensures r.stop != NoRoom
    decreases |cmds|
  {
    if t.IsLeaf() then Run([t], DeadEnd)
    else if |cmds| == 0 then Run([t], OutOfInput)
    else if cmds[0] == 's' then Run([t], Quit)
    else
      var rest := Walk(Step(t, cmds[0]), cmds[1..]);
      Run([t] + rest.rooms, rest.stop)
  }

  /** What a walk leaves in a log of `LOG_CAPACITY` entries. */
  function Bounded(run: Run): (o: Outcome)
    ensures o.Finished? <==> |run.rooms| <= LOG_CAPACITY
    ensures o.Finished? ==> o.log == LogOf(run.rooms) && o.stop == run.stop
    ensures o.LogOverflow? ==> o.written == LogOf(run.rooms)[..LOG_CAPACITY]
  {
    if |run.rooms| <= LOG_CAPACITY then Finished(LogOf(run.rooms), run.stop)
    else LogOverflow(LogOf(run.rooms)[..LOG_CAPACITY])
  }

  /** Follows the exit that a command names: 'e' the left one, 'd' the right
      one, when it exists; a missing exit or any other command stays put, so
      the same room is logged again in the next round. */
  method Move(current: Room, option: char) returns (next: Room)
    requires current.Valid()
    ensures next.Valid() && next.Model == Step(current.Model, option)
    ensures next == current || next == current.left || next == current.right
  {
    next := current;
    if option == 'e' {
      if current.left != null {
        next := current.left;
      }
    } else if option == 'd' {
      if current.right != null {
        next := current.right;
      }
    }
  }

  /** Writes `name` into entry `count` of the log, right after the entries
      already written. */
  method Record(visited: array<string>, count: nat, name: string)
    requires count < visited.Length
    modifies visited
    ensures visited[..] == old(visited[..])[count := name]
    ensures visited[..count + 1] == old(visited[..count]) + [name]
  {
    visited[count] := name;
    assert visited[..count + 1] == old(visited[..count]) + [name];
  }

  /** The exploration as written: a loop over the current room that writes
      the room's name into a fixed log of `LOG_CAPACITY` names before looking
      at its exits or reading a command. A write past the last entry is
      reported as `LogOverflow` instead of being performed. */
  method Explore(root: Room?, input: seq<char>) returns (r: Outcome)
    requires root != null ==> root.Valid()
    ensures root == null ==> r == Finished([], NoRoom)
    ensures root != null ==> r == Bounded(Walk(root.Model, input))
  {
    var visited := new string[LOG_CAPACITY];
    var count := 0;
    if root == null {
      // the loop over the current room does not run: nothing is logged
      r := Finished(visited[..count], NoRoom);
      return;
    }
    var current: Room? := root;
    var i := 0;
    var stop: Stop;
    ghost var run := Walk(root.Model, input);
    ghost var trail: seq<Tree> := [];

    while current != null
      invariant 0 <= i <= |input|
      invariant 0 <= count <= visited.Length == LOG_CAPACITY
      invariant count == |trail| && visited[..count] == LogOf(trail)
      invariant current != null && current.Valid()
      invariant Rest(run, trail, current.Model, input[i..])
      modifies visited
      decreases |input| - i
    {
      ghost var here, before, unread := current.Model, trail, input[i..];
      if count == LOG_CAPACITY {
        assert visited[..] == visited[..count];
        OverflowOutcome(run, trail, here, unread);
        r := LogOverflow(visited[..]);
        return;
      }
      Record(visited, count, current.name);
      LogOfSnoc(trail, here);
      trail := trail + [here];
      count := count + 1;

      if current.left == null && current.right == null {
        stop := DeadEnd;
        WalkEnds(run, before, here, unread);
        break;
      }
      if i == |input| {
        stop := OutOfInput;
        WalkEnds(run, before, here, unread);
        break;
      }
      var option := input[i];
      if option == 's' {
        stop := Quit;
        WalkEnds(run, before, here, unread);
        break;
      }
      current := Move(current, option);
      WalkRound(run, before, here, current.Model, unread);
      assert unread[1..] == input[i + 1..];
      i := i + 1;
    }
    FinishedOutcome(run, trail);
    r := Finished(visited[..count], stop);
  }

  /** The exploration with a log that grows with the walk: it reports every
      visit of every walk, whatever the length of the input. */
  method ExploreGrowing(root: Room?, input: seq<char>) returns (log: seq<string>, stop: Stop)
    requires root != null ==> root.Valid()
    ensures root == null ==> log == [] && stop == NoRoom
    ensures root != null ==>
      log == LogOf(Walk(root.Model, input).rooms) && stop == Walk(root.Model, input).stop
  {
    log := [];
    if root == null {
      stop := NoRoom;
      return;
    }
    var current: Room? := root;
    var i := 0;
    ghost var run := Walk(root.Model, input);
    ghost var trail: seq<Tree> := [];

    while current != null
      invariant 0 <= i <= |input|
      invariant log == LogOf(trail)
      invariant current != null && current.Valid()
      invariant Rest(run, trail, current.Model, input[i..])
      decreases |input| - i
    {
      ghost var here, before := current.Model, trail;
      LogOfSnoc(trail, here);
      log := log + [current.name];
      trail := trail + [here];

      if current.left == null && current.right == null {
        stop := DeadEnd;
        WalkEnds(run, before, here, input[i..]);
        break;
      }
      if i == |input| {
        stop := OutOfInput;
        WalkEnds(run, before, here, input[i..]);
        break;
      }
      var option := input[i];
      if option == 's' {
        stop := Quit;
        WalkEnds(run, before, here, input[i..]);
        break;
      }
      current := Move(current, option);
      WalkRound(run, before, here, current.Model, input[i..]);
      i := i + 1;
    }
  }

  /** Loop invariant of the explorations: the whole walk `run` is the rooms
      logged so far followed by the walk from `current` on the unread commands. */
  ghost predicate Rest(run: Run, trail: seq<Tree>, current: Tree, unread: seq<char>) {
    run.rooms == trail + Walk(current, unread).rooms && run.stop == Walk(current, unread).stop
  }

  /** A round that stops: logging `here` completes the walk. */
  lemma WalkEnds(run: Run, trail: seq<Tree>, here: Tree, unread: seq<char>)
    requires Rest(run, trail, here, unread)
    requires here.IsLeaf() || |unread| == 0 || unread[0] == 's'
    ensures run.rooms == trail + [here]
    ensures run.stop == if here.IsLeaf() then DeadEnd else if |unread| == 0 then OutOfInput else Quit
  {
  }

  /** A walk whose rooms all fit the log is reported in full. */
  lemma FinishedOutcome(run: Run, trail: seq<Tree>)
    requires run.rooms == trail && |trail| <= LOG_CAPACITY
    ensures Bounded(run) == Finished(LogOf(trail), run.stop)
  {
  }

  /** A round that finds the log full: the walk has more rooms than the log
      has entries, and the log holds exactly the rooms visited so far. */
  lemma OverflowOutcome(run: Run, trail: seq<Tree>, here: Tree, unread: seq<char>)
    requires Rest(run, trail, here, unread) && |trail| == LOG_CAPACITY
    ensures Bounded(run) == LogOverflow(LogOf(trail))
  {
    assert run.rooms[..LOG_CAPACITY] == trail;
  }

  /** Logging one more room appends its name. */
  lemma LogOfSnoc(trail: seq<Tree>, t: Tree)
    ensures LogOf(trail + [t]) == LogOf(trail) + [t.name]
  {
  }

  /** One round of the loop that neither stops nor ends: logging `here` and
      moving to `next` keeps the invariant, one command further on. */
  lemma WalkRound(run: Run, trail: seq<Tree>, here: Tree, next: Tree, unread: seq<char>)
    requires Rest(run, trail, here, unread)
    requires !here.IsLeaf() && |unread| > 0 && unread[0] != 's'
    requires next == Step(here, unread[0])
    ensures Rest(run, trail + [here], next, unread[1..])
  {
  }

  /** Room `b` is room `a` or one of its children. */
  predicate StaysOrDescends(a: Tree, b: Tree) {
    b == a || Some(b) == a.left || Some(b) == a.right
  }

  /** Every room of `rooms` after the first stays at or descends from the one before. */
  predicate IsPath(rooms: seq<Tree>) {
    forall k :: 0 < k < |rooms| ==> StaysOrDescends(rooms[k - 1], rooms[k])
  }

  /** Each logged room after the first is the previous one (an unknown
      command or a missing exit) or one of its children, so the log traces a
      path down from the starting room, with repetitions. */
  lemma {:induction false} WalkIsPath(t: Tree, cmds: seq<char>)
    ensures IsPath(Walk(t, cmds).rooms)
    decreases |cmds|
  {
    if !t.IsLeaf() && |cmds| > 0 && cmds[0] != 's' {
      var next := Step(t, cmds[0]);
      WalkIsPath(next, cmds[1..]);
      var rooms := Walk(t, cmds).rooms;
      var rest := Walk(next, cmds[1..]).rooms;
      assert rooms == [t] + rest;
      forall k | 0 < k < |rooms|
        ensures StaysOrDescends(rooms[k - 1], rooms[k])
      {
        if k > 1 {
          assert rooms[k] == rest[k - 1] && rooms[k - 1] == rest[k - 2];
        }
      }
    }
  }

  /** A walk ends at a dead end exactly when the last logged room has no
      exits; every other walk ends in a room that has one. */
  lemma {:induction false} DeadEndIffLeaf(t: Tree, cmds: seq<char>)
    ensures var r := Walk(t, cmds);
      r.stop == DeadEnd <==> r.rooms[|r.rooms| - 1].IsLeaf()
    decreases |cmds|
  {
    if !t.IsLeaf() && |cmds| > 0 && cmds[0] != 's' {
      var next := Step(t, cmds[0]);
      DeadEndIffLeaf(next, cmds[1..]);
      var rest := Walk(next, cmds[1..]).rooms;
      assert Walk(t, cmds).rooms[|Walk(t, cmds).rooms| - 1] == rest[|rest| - 1];
    }
  }

  /** Every round but the last consumes one command, so a walk logs at most
      one room more than there are commands, and exactly that many when it
      ends for want of input. */
  lemma {:induction false} WalkLength(t: Tree, cmds: seq<char>)
    ensures |Walk(t, cmds).rooms| <= |cmds| + 1
    ensures Walk(t, cmds).stop == OutOfInput ==> |Walk(t, cmds).rooms| == |cmds| + 1
    decreases |cmds|
  {
    if !t.IsLeaf() && |cmds| > 0 && cmds[0] != 's' {
      WalkLength(Step(t, cmds[0]), cmds[1..]);
    }
  }

  /** With fewer commands than log entries the fixed log never overflows. */
  lemma ShortInputFitsLog(t: Tree, cmds: seq<char>)
    requires |cmds| < LOG_CAPACITY
    ensures Bounded(Walk(t, cmds)).Finished?
  {
    WalkLength(t, cmds);
  }

  /** A walk visits more than `k` rooms exactly when it has at least `k`
      commands and its first `k` commands alone already make it visit
      `k + 1` rooms: the rooms visited in the first rounds do not depend on
      the commands read later. */
  lemma {:induction false} WalkPrefixLength(t: Tree, cmds: seq<char>, k: nat)
    ensures |Walk(t, cmds).rooms| > k <==> |cmds| >= k && |Walk(t, cmds[..k]).rooms| == k + 1
    decreases k
  {
    if k > 0 && !t.IsLeaf() && |cmds| > 0 && cmds[0] != 's' {
      var next := Step(t, cmds[0]);
      WalkPrefixLength(next, cmds[1..], k - 1);
      if |cmds| >= k {
        assert cmds[..k][0] == cmds[0];
        assert cmds[..k][1..] == cmds[1..][..k - 1];
      }
    } else if k > 0 && |cmds| >= k {
      assert cmds[..k][0] == cmds[0];
    }
  }

  /** The fixed log overflows exactly when the walk is still going after
      `LOG_CAPACITY` commands: there are that many commands, and the walk on
      just those visits one room more than the log holds. */
  lemma OverflowIff(t: Tree, cmds: seq<char>)
    ensures Bounded(Walk(t, cmds)).LogOverflow?
        <==> |cmds| >= LOG_CAPACITY && |Walk(t, cmds[..LOG_CAPACITY]).rooms| == LOG_CAPACITY + 1
  {
    WalkPrefixLength(t, cmds, LOG_CAPACITY);
  }

  /** A command that neither quits nor leads anywhere from room `t`. */
  predicate Idle(t: Tree, c: char) {
    c != 's' && Step(t, c) == t
  }

  /** In a room with exits, commands that lead nowhere log the same room once
      per command and once more when the input runs out. */
  lemma {:induction false} IdleCommandsRelog(t: Tree, cmds: seq<char>)
    requires !t.IsLeaf()
    requires forall k :: 0 <= k < |cmds| ==> Idle(t, cmds[k])
    ensures Walk(t, cmds) == Run(seq(|cmds| + 1, _ => t), OutOfInput)
    decreases |cmds|
  {
    if |cmds| > 0 {
      IdleCommandsRelog(t, cmds[1..]);
      assert [t] + seq(|cmds|, _ => t) == seq(|cmds| + 1, _ => t);
    }
  }

  /** A room without exits ends the walk at once, logging it once, whatever
      commands remain. */
  lemma DeadEndIgnoresInput(t: Tree, cmds: seq<char>)
    requires t.IsLeaf()
    ensures Walk(t, cmds) == Run([t], DeadEnd)
  {
  }

  /** In a room with exits the command 's' ends the walk after logging the room. */
  lemma QuitStopsAtOnce(t: Tree, cmds: seq<char>)
    requires !t.IsLeaf()
    ensures Walk(t, ['s'] + cmds) == Run([t], Quit)
  {
  }
}
