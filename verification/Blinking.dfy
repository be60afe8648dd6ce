/** Blinking characters as values: the reference for the list of fish (fish/blink.S). */
module Blinking {
  import opened Common

  const WORD := 0x10000
  const LOCATIONS := 2000
  const POOL := 2000

  type word = w: nat | w < WORD

  /** A node of the list without its link; `status` is 1 while the on character shows. */
  datatype Blinker = Blinker(
    location: word,
    onChar: byte,
    offChar: byte,
    onLength: word,
    offLength: word,
    countdown: word,
    status: word)

  predicate Ok(b: Blinker) {
    0 < b.location < LOCATIONS && b.status <= 1
  }

  function Started(location: word, onChar: byte, offChar: byte, onLength: word, offLength: word): Blinker {
    Blinker(location, onChar, offChar, onLength, offLength, onLength, 1)
  }

  // ---------------------------------------------------------------- one timer

  /** Decrementing a 16-bit word. */
  function Decrement(w: word): word {
    if w == 0 then WORD - 1 else w - 1
  }

  /** A word is positive as a signed number. */
  predicate IsPositive(w: word) {
    0 < w < 0x8000
  }

  predicate Expires(b: Blinker) {
    !IsPositive(Decrement(b.countdown))
  }

  function Tick(b: Blinker): (r: Blinker)
    requires Ok(b)
    ensures Ok(r) && r.location == b.location
  {
    if !Expires(b) then b.(countdown := Decrement(b.countdown))
    else if b.status == 1 then b.(countdown := b.offLength, status := 0)
    else b.(countdown := b.onLength, status := 1)
  }

  function TickN(b: Blinker, n: nat): (r: Blinker)
    requires Ok(b)
    ensures Ok(r) && r.location == b.location
  {
    if n == 0 then b else Tick(TickN(b, n - 1))
  }

  /** How many ticks a length lasts: the signed comparison cuts lengths above 32768, and the length 0,
      to a single tick. */
  function Duration(length: word): nat {
    if 1 <= length <= 0x8000 then length else 1
  }

  /** A duration is the length, or 1 for the length 0, exactly for lengths up to 32768; longer ones last a
      single tick. */
  lemma DurationIsLengthIff(length: word)
    ensures Duration(length) == Max(1, length) <==> length <= 0x8000
    ensures length > 0x8000 ==> Duration(length) == 1
  {
  }

  /** `n` modulo `period`, counted up. */
  function Phase(n: nat, period: nat): (r: nat)
    requires period > 0
    ensures r < period
  {
    if n == 0 then 0
    else
      var before := Phase(n - 1, period);
      if before == period - 1 then 0 else before + 1
  }

  lemma {:induction false} PhaseIsRemainder(n: nat, period: nat) returns (q: nat)
    requires period > 0
    ensures n == q * period + Phase(n, period)
    ensures n % period == Phase(n, period)
  {
    if n == 0 {
      q := 0;
    } else {
      q := PhaseIsRemainder(n - 1, period);
      if Phase(n - 1, period) == period - 1 {
        q := q + 1;
      }
    }
    RemainderIs(n, period, q, Phase(n, period));
  }

  lemma RemainderIs(n: nat, period: nat, q: nat, r: nat)
    requires r < period && n == q * period + r
    ensures n % period == r
  {
    var d := n / period;
    assert n == d * period + n % period;
    if d < q {
      Apart(d, q, period);
    } else if q < d {
      Apart(q, d, period);
    }
  }

  lemma Apart(a: nat, b: nat, period: nat)
    requires a < b && period > 0
    ensures a * period + period <= b * period
  {
    assert b * period - a * period == (b - a) * period;
    assert (b - a - 1) * period >= 0;
  }

  /** The whole state of a timer after `n` ticks, in closed form. */
  lemma {:induction false} TimerClosedForm(b: Blinker, n: nat)
    requires Ok(b) && b.status == 1 && b.countdown == b.onLength
    ensures var on, off := Duration(b.onLength), Duration(b.offLength);
      var k := Phase(n, on + off);
      TickN(b, n) == if k < on then b.(countdown := b.onLength - k)
                     else b.(countdown := b.offLength - (k - on), status := 0)
  {
    if n > 0 {
      TimerClosedForm(b, n - 1);
    }
  }

  /** After `n` ticks a started node is on exactly when n mod (on + off) < on, for the durations of its
      two lengths. */
  lemma OnExactlyWhen(b: Blinker, n: nat)
    requires Ok(b) && b.status == 1 && b.countdown == b.onLength
    ensures var on, off := Duration(b.onLength), Duration(b.offLength);
      TickN(b, n).status == 1 <==> n % (on + off) < on
  {
    var q := PhaseIsRemainder(n, Duration(b.onLength) + Duration(b.offLength));
    TimerClosedForm(b, n);
  }

  // ---------------------------------------------------------------- a list of them and the screen

  /** The nodes, latest first, and the character of every screen location. */
  datatype Board = Board(nodes: seq<Blinker>, video: seq<byte>)

  predicate BoardOk(s: Board) {
    && |s.nodes| <= POOL && |s.video| == LOCATIONS
    && forall i :: 0 <= i < |s.nodes| ==> Ok(s.nodes[i])
  }

  function Shown(b: Blinker): byte {
    if b.status == 1 then b.onChar else b.offChar
  }

  function TickAll(nodes: seq<Blinker>): (r: seq<Blinker>)
    requires forall i :: 0 <= i < |nodes| ==> Ok(nodes[i])
    ensures |r| == |nodes| && forall i :: 0 <= i < |r| ==> r[i] == Tick(nodes[i])
  {
    seq(|nodes|, i requires 0 <= i < |nodes| => Tick(nodes[i]))
  }

  /** The list-walking loop draws the nodes whose countdown expires, in list order. */
  function DrawAll(nodes: seq<Blinker>, video: seq<byte>): (r: seq<byte>)
    requires |video| == LOCATIONS && forall i :: 0 <= i < |nodes| ==> Ok(nodes[i])
    ensures |r| == LOCATIONS
  {
    if nodes == [] then video
    else
      var b := nodes[|nodes| - 1];
      assert Ok(b);
      var before := DrawAll(nodes[..|nodes| - 1], video);
      if Expires(b) then before[b.location := Shown(Tick(b))] else before
  }

  function Ticked(s: Board): (r: Board)
    requires BoardOk(s)
    ensures BoardOk(r)
  {
    Board(TickAll(s.nodes), DrawAll(s.nodes, s.video))
  }

  /** The first node at a location: the one added last. */
  function Find(nodes: seq<Blinker>, location: int): (i: nat)
    ensures i <= |nodes|
    ensures i < |nodes| ==> nodes[i].location == location
    ensures forall k :: 0 <= k < i ==> nodes[k].location != location
  {
    if nodes == [] || nodes[0].location == location then 0 else 1 + Find(nodes[1..], location)
  }

  function Added(s: Board, b: Blinker): (r: Board)
    requires BoardOk(s) && Ok(b)
    ensures BoardOk(r)
  {
    if |s.nodes| == POOL then s
    else Board([b] + s.nodes, s.video[b.location := b.onChar])
  }

  function Removed(s: Board, location: int): (r: Board)
    requires BoardOk(s)
    ensures BoardOk(r)
  {
    var i := Find(s.nodes, location);
    if i == |s.nodes| then s else s.(nodes := s.nodes[..i] + s.nodes[i + 1..])
  }

  /** The second node's timer becomes the first one's; what is drawn is always the off character. */
  function Synced(s: Board, source: int, dest: int): (r: Board)
    requires BoardOk(s)
    ensures BoardOk(r)
  {
    var i, j := Find(s.nodes, source), Find(s.nodes, dest);
    if i == |s.nodes| || j == |s.nodes| then s
    else
      var a := s.nodes[i];
      var b := s.nodes[j].(onLength := a.onLength, offLength := a.offLength,
                           countdown := a.countdown, status := a.status);
      Board(s.nodes[j := b], s.video[b.location := b.offChar])
  }

  datatype Action = AddNode(b: Blinker) | RemoveNode(location: word) | SyncNodes(source: word, dest: word) | Tasklet

  /** An add at a location off the screen is refused; location 0 is dealt with in BlinkList. */
  function Act(s: Board, a: Action): (r: Board)
    requires BoardOk(s)
    ensures BoardOk(r)
  {
    match a
    case AddNode(b) => if Ok(b) then Added(s, b) else s
    case RemoveNode(location) => Removed(s, location)
    case SyncNodes(source, dest) => Synced(s, source, dest)
    case Tasklet => Ticked(s)
  }

  // ---------------------------------------------------------------- one location among the others

  /** The nodes at a location, in list order. */
  function At(nodes: seq<Blinker>, location: int): seq<Blinker> {
    if nodes == [] then []
    else (if nodes[0].location == location then [nodes[0]] else []) + At(nodes[1..], location)
  }

  /** Exactly one node is at its location, and its cell shows what its status says. */
  predicate Alone(s: Board, b: Blinker)
    requires BoardOk(s) && Ok(b)
  {
    At(s.nodes, b.location) == [b] && s.video[b.location] == Shown(b)
  }

  lemma {:induction false} AtJoin(a: seq<Blinker>, b: seq<Blinker>, location: int)
    ensures At(a + b, location) == At(a, location) + At(b, location)
  {
    if a == [] {
      assert a + b == b;
    } else {
      var here: seq<Blinker> := if a[0].location == location then [a[0]] else [];
      assert (a + b)[1..] == a[1..] + b;
      AtJoin(a[1..], b, location);
      assert At(a + b, location) == here + At((a + b)[1..], location);
      assert here + (At(a[1..], location) + At(b, location)) == (here + At(a[1..], location)) + At(b, location);
    }
  }

  lemma AtReplace(nodes: seq<Blinker>, i: nat, b: Blinker, location: int)
    requires i < |nodes| && b.location == nodes[i].location != location
    ensures At(nodes[i := b], location) == At(nodes, location)
    ensures At(nodes[..i] + nodes[i + 1..], location) == At(nodes, location)
  {
    assert nodes == nodes[..i] + [nodes[i]] + nodes[i + 1..];
    assert nodes[i := b] == nodes[..i] + [b] + nodes[i + 1..];
    AtJoin(nodes[..i] + [nodes[i]], nodes[i + 1..], location);
    AtJoin(nodes[..i], [nodes[i]], location);
    AtJoin(nodes[..i] + [b], nodes[i + 1..], location);
    AtJoin(nodes[..i], [b], location);
    AtJoin(nodes[..i], nodes[i + 1..], location);
  }

  /** A tick of the list ticks the lone node and redraws its cell if that changes. */
  lemma {:induction false} TickAlone(nodes: seq<Blinker>, video: seq<byte>, b: Blinker)
    requires |video| == LOCATIONS && (forall i :: 0 <= i < |nodes| ==> Ok(nodes[i])) && Ok(b)
    ensures At(nodes, b.location) == [] ==>
      At(TickAll(nodes), b.location) == [] && DrawAll(nodes, video)[b.location] == video[b.location]
    ensures At(nodes, b.location) == [b] ==>
      && At(TickAll(nodes), b.location) == [Tick(b)]
      && DrawAll(nodes, video)[b.location] == if Expires(b) then Shown(Tick(b)) else video[b.location]
  {
    if nodes != [] {
      var front, last := nodes[..|nodes| - 1], nodes[|nodes| - 1];
      assert nodes == front + [last] && TickAll(nodes) == TickAll(front) + [Tick(last)];
      AtJoin(front, [last], b.location);
      AtJoin(TickAll(front), [Tick(last)], b.location);
      assert At([last], b.location) == if last.location == b.location then [last] else [];
      assert At([Tick(last)], b.location) == if last.location == b.location then [Tick(last)] else [];
      TickAlone(front, video, b);
      if last.location == b.location && At(nodes, b.location) == [b] {
        var earlier := At(front, b.location);
        assert (earlier + [last])[|earlier|] == last;
        assert |earlier + [last]| == 1;
      }
    }
  }

  /** The action leaves location `l` to its node: nothing is added or removed there, and no other timer
      is copied into it. */
  predicate Spares(a: Action, l: int) {
    match a
    case AddNode(b) => b.location != l
    case RemoveNode(location) => location != l
    case SyncNodes(_, dest) => dest != l
    case Tasklet => true
  }

  function Ticks(actions: seq<Action>): nat {
    if actions == [] then 0 else (if actions[0].Tasklet? then 1 else 0) + Ticks(actions[1..])
  }

  function ActAll(s: Board, actions: seq<Action>): (r: Board)
    requires BoardOk(s)
    ensures BoardOk(r)
    decreases |actions|
  {
    if actions == [] then s else ActAll(Act(s, actions[0]), actions[1..])
  }

  /** The list's part of it: exactly one node is at its location. */
  predicate Listed(s: Board, b: Blinker) {
    At(s.nodes, b.location) == [b]
  }

  lemma ActListed(s: Board, a: Action, b: Blinker)
    requires BoardOk(s) && Ok(b) && Listed(s, b) && Spares(a, b.location)
    ensures Listed(Act(s, a), if a.Tasklet? then Tick(b) else b)
  {
    match a
    case AddNode(n) => AtJoin([n], s.nodes, b.location);
    case RemoveNode(location) =>
      var i := Find(s.nodes, location);
      if i < |s.nodes| {
        AtReplace(s.nodes, i, s.nodes[i], b.location);
      }
    case SyncNodes(source, dest) =>
      var i, j := Find(s.nodes, source), Find(s.nodes, dest);
      if i < |s.nodes| && j < |s.nodes| {
        AtReplace(s.nodes, j, Synced(s, source, dest).nodes[j], b.location);
      }
    case Tasklet => TickAlone(s.nodes, s.video, b);
  }

  lemma ActAlone(s: Board, a: Action, b: Blinker)
    requires BoardOk(s) && Ok(b) && Alone(s, b) && Spares(a, b.location)
    ensures Alone(Act(s, a), if a.Tasklet? then Tick(b) else b)
  {
    ActListed(s, a, b);
    if a.Tasklet? {
      TickAlone(s.nodes, s.video, b);
    }
  }

  lemma TickNFirst(b: Blinker, n: nat)
    requires Ok(b)
    ensures TickN(Tick(b), n) == TickN(b, n + 1)
  {
  }

  lemma {:induction false} RunAlone(s: Board, actions: seq<Action>, b: Blinker)
    requires BoardOk(s) && Ok(b) && Alone(s, b)
    requires forall i :: 0 <= i < |actions| ==> Spares(actions[i], b.location)
    ensures Alone(ActAll(s, actions), TickN(b, Ticks(actions)))
    decreases |actions|
  {
    if actions != [] {
      ActAlone(s, actions[0], b);
      var next := if actions[0].Tasklet? then Tick(b) else b;
      RunAlone(Act(s, actions[0]), actions[1..], next);
      TickNFirst(b, Ticks(actions[1..]));
    }
  }

  lemma {:induction false} RunListed(s: Board, actions: seq<Action>, b: Blinker)
    requires BoardOk(s) && Ok(b) && Listed(s, b)
    requires forall i :: 0 <= i < |actions| ==> Spares(actions[i], b.location)
    ensures Listed(ActAll(s, actions), TickN(b, Ticks(actions)))
    decreases |actions|
  {
    if actions != [] {
      ActListed(s, actions[0], b);
      var next := if actions[0].Tasklet? then Tick(b) else b;
      RunListed(Act(s, actions[0]), actions[1..], next);
      TickNFirst(b, Ticks(actions[1..]));
    }
  }

  /** The timing law of the list. A node added at a free location shows its on character after `n`
      tasklet ticks exactly when n mod (on + off) < on, and its off character otherwise, whatever is
      added, removed, synchronised or ticked at other locations. */
  lemma BlinksInTime(s: Board, location: word, onChar: byte, offChar: byte, onLength: word, offLength: word,
                     actions: seq<Action>)
    requires BoardOk(s) && |s.nodes| < POOL && 0 < location < LOCATIONS && At(s.nodes, location) == []
    requires forall i :: 0 <= i < |actions| ==> Spares(actions[i], location)
    ensures var on, off := Duration(onLength), Duration(offLength);
      var b := Started(location, onChar, offChar, onLength, offLength);
      ActAll(Added(s, b), actions).video[location]
        == if Ticks(actions) % (on + off) < on then onChar else offChar
  {
    var b := Started(location, onChar, offChar, onLength, offLength);
    AtJoin([b], s.nodes, location);
    RunAlone(Added(s, b), actions, b);
    OnExactlyWhen(b, Ticks(actions));
    var q := PhaseIsRemainder(Ticks(actions), Duration(onLength) + Duration(offLength));
    TimerClosedForm(b, Ticks(actions));
  }

  // ---------------------------------------------------------------- adding, removing, drawing

  /** An added node comes first at its location, the others stay; its on character is drawn. */
  lemma AddedIs(s: Board, b: Blinker, location: int)
    requires BoardOk(s) && Ok(b) && |s.nodes| < 2000
    ensures var r := Act(s, AddNode(b));
      && At(r.nodes, location) == (if location == b.location then [b] else []) + At(s.nodes, location)
      && r.video == s.video[b.location := b.onChar]
  {
    AtJoin([b], s.nodes, location);
    assert At([b], location) == if location == b.location then [b] else [];
  }

  /** A removal takes away the node that was added last at the location and leaves all others and the screen
      as they are. */
  lemma RemovedIs(s: Board, location: word, l: int)
    requires BoardOk(s)
    ensures var r := Act(s, RemoveNode(location));
      && r.video == s.video
      && At(r.nodes, l) == if l == location && At(s.nodes, l) != [] then At(s.nodes, l)[1..] else At(s.nodes, l)
  {
    var i := Find(s.nodes, location);
    if i < |s.nodes| {
      if l == location {
        FirstGone(s.nodes, i, location);
      } else {
        AtReplace(s.nodes, i, s.nodes[i], l);
      }
    } else {
      NoneAt(s.nodes, location);
    }
  }

  lemma FirstGone(nodes: seq<Blinker>, i: nat, location: int)
    requires i < |nodes| && nodes[i].location == location
    requires forall k :: 0 <= k < i ==> nodes[k].location != location
    ensures At(nodes, location) == [nodes[i]] + At(nodes[..i] + nodes[i + 1..], location)
  {
    var front, rest := nodes[..i], nodes[i + 1..];
    assert nodes == front + ([nodes[i]] + rest);
    assert At([nodes[i]] + rest, location) == [nodes[i]] + At(rest, location) by {
      assert ([nodes[i]] + rest)[1..] == rest;
    }
    hide At;
    NoneAt(front, location);
    AtJoin(front, [nodes[i]] + rest, location);
    AtJoin(front, rest, location);
    assert [] + At(rest, location) == At(rest, location);
    assert [] + At([nodes[i]] + rest, location) == At([nodes[i]] + rest, location);
  }

  /** Node `i` is the last in the list at location `l` to expire with this tick. */
  predicate DrawnLast(nodes: seq<Blinker>, i: nat, l: int) {
    && i < |nodes| && nodes[i].location == l && Expires(nodes[i])
    && forall k :: i < k < |nodes| ==> !(nodes[k].location == l && Expires(nodes[k]))
  }

  /** After a tick a cell shows the node there that is the last to expire, and what it showed before if none
      has. */
  lemma {:induction false} DrawnIs(nodes: seq<Blinker>, video: seq<byte>, l: nat)
    requires |video| == LOCATIONS && l < LOCATIONS && forall i :: 0 <= i < |nodes| ==> Ok(nodes[i])
    ensures forall i: nat :: DrawnLast(nodes, i, l) ==> DrawAll(nodes, video)[l] == Shown(Tick(nodes[i]))
    ensures (forall b :: b in nodes ==> !(b.location == l && Expires(b))) ==> DrawAll(nodes, video)[l] == video[l]
  {
    hide Tick, Expires, Shown;
    if nodes != [] {
      var front, last := nodes[..|nodes| - 1], nodes[|nodes| - 1];
      DrawnIs(front, video, l);
      assert last in nodes && forall b :: b in front ==> b in nodes;
      forall i: nat | DrawnLast(nodes, i, l) ensures DrawAll(nodes, video)[l] == Shown(Tick(nodes[i])) {
        if i < |front| {
          assert !(nodes[|nodes| - 1].location == l && Expires(nodes[|nodes| - 1]));
          assert DrawnLast(front, i, l);
        }
      }
    }
  }

  // ---------------------------------------------------------------- synchronising

  predicate SameTimer(a: Blinker, b: Blinker) {
    a.onLength == b.onLength && a.offLength == b.offLength && a.countdown == b.countdown && a.status == b.status
  }

  lemma {:induction false} SameTimerForever(a: Blinker, b: Blinker, n: nat)
    requires Ok(a) && Ok(b) && SameTimer(a, b)
    ensures SameTimer(TickN(a, n), TickN(b, n))
  {
    if n > 0 {
      SameTimerForever(a, b, n - 1);
    }
  }

  lemma {:induction false} SameCharsForever(b: Blinker, n: nat)
    requires Ok(b)
    ensures TickN(b, n).onChar == b.onChar && TickN(b, n).offChar == b.offChar
  {
    if n > 0 {
      SameCharsForever(b, n - 1);
    }
  }

  /** The only node at a location is the one found there, and replacing it replaces just that. */
  lemma OnlyNode(nodes: seq<Blinker>, location: int, b: Blinker, c: Blinker)
    requires At(nodes, location) == [b] && c.location == location
    ensures var i := Find(nodes, location);
      i < |nodes| && nodes[i] == b && At(nodes[i := c], location) == [c]
  {
    var i := Find(nodes, location);
    if i == |nodes| {
      NoneAt(nodes, location);
    } else {
      var front, rest := nodes[..i], nodes[i + 1..];
      assert nodes == front + [nodes[i]] + rest && nodes[i := c] == front + [c] + rest;
      NoneAt(front, location);
      AtJoin(front + [nodes[i]], rest, location);
      AtJoin(front, [nodes[i]], location);
      AtJoin(front + [c], rest, location);
      AtJoin(front, [c], location);
      assert [nodes[i]] + At(rest, location) == [b];
      assert |[nodes[i]] + At(rest, location)| == 1 && ([nodes[i]] + At(rest, location))[0] == nodes[i];
    }
  }

  lemma {:induction false} NoneAt(nodes: seq<Blinker>, location: int)
    requires forall k :: 0 <= k < |nodes| ==> nodes[k].location != location
    ensures At(nodes, location) == []
  {
    if nodes != [] {
      NoneAt(nodes[1..], location);
    }
  }

  /** Synchronising two nodes, each the only one at its location, makes their timers equal, and equal they
      stay through every run of ticks and requests that leaves both locations alone. */
  lemma SyncedStaySynced(s: Board, a: Blinker, b: Blinker, actions: seq<Action>)
    requires BoardOk(s) && Ok(a) && Ok(b) && Listed(s, a) && Listed(s, b) && a.location != b.location
    requires forall i :: 0 <= i < |actions| ==> Spares(actions[i], a.location) && Spares(actions[i], b.location)
    ensures var nodes := ActAll(Synced(s, a.location, b.location), actions).nodes;
      && |At(nodes, a.location)| == |At(nodes, b.location)| == 1
      && SameTimer(At(nodes, a.location)[0], At(nodes, b.location)[0])
      && At(nodes, a.location)[0] == TickN(a, Ticks(actions))
      && At(nodes, b.location)[0].onChar == b.onChar && At(nodes, b.location)[0].offChar == b.offChar
  {
    var r := Synced(s, a.location, b.location);
    var c := b.(onLength := a.onLength, offLength := a.offLength, countdown := a.countdown, status := a.status);
    OnlyNode(s.nodes, a.location, a, a);
    OnlyNode(s.nodes, b.location, b, c);
    AtReplace(s.nodes, Find(s.nodes, b.location), c, a.location);
    RunListed(r, actions, a);
    RunListed(r, actions, c);
    SameTimerForever(a, c, Ticks(actions));
    SameCharsForever(c, Ticks(actions));
  }

  /** But the drawing does not follow: right after it the second node's cell shows what its status says
      exactly when that is off, or its two characters are the same. */
  lemma SyncDrawsStatusIff(s: Board, source: int, dest: int)
    requires BoardOk(s) && Find(s.nodes, source) < |s.nodes| && Find(s.nodes, dest) < |s.nodes|
    ensures var b := Synced(s, source, dest).nodes[Find(s.nodes, dest)];
      b.location == dest && Synced(s, source, dest).video == s.video[dest := b.offChar]
    ensures var b := Synced(s, source, dest).nodes[Find(s.nodes, dest)];
      Synced(s, source, dest).video[b.location] == Shown(b) <==> b.status == 0 || b.onChar == b.offChar
  {
  }
}
