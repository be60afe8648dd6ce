/** The intrusive list of blinking characters (fish/blink.S) over its array of slots (fish/fish.c). A
    pointer to a slot is the slot's index, the null pointer is -1, and a slot's NEXT field is kept beside
    its other fields. A free slot is marked by location 0. The screen is modelled by its character cells;
    the assembly addresses them as every second byte of video memory. */
module BlinkList {
  import opened Common
  import opened Blinking

  const NULL := -1

  predicate Distinct(s: seq<nat>) {
    forall i, j :: 0 <= i < j < |s| ==> s[i] != s[j]
  }

  /** The slot at position `i` of a list, null behind the last one. */
  function NodeAt(list: seq<nat>, i: nat): int
    requires i <= |list|
  {
    if i < |list| then list[i] else NULL
  }

  /** Following the links from the head visits the slots of `list`, each once, and ends. */
  ghost predicate Linked(next: seq<int>, head: int, list: seq<nat>) {
    && Distinct(list) && |list| <= |next|
    && head == NodeAt(list, 0)
    && (forall i :: 0 <= i < |list| ==> list[i] < |next|)
    && forall i {:trigger next[list[i]]} :: 0 <= i < |list| ==> next[list[i]] == NodeAt(list, i + 1)
  }

  /** The linked slots are exactly those that are not marked free. */
  ghost predicate Agree(slots: seq<Blinker>, list: seq<nat>) {
    forall p: nat :: p < |slots| ==> (slots[p].location != 0 <==> p in list)
  }

  function Values(slots: seq<Blinker>, list: seq<nat>): (r: seq<Blinker>)
    requires forall i :: 0 <= i < |list| ==> list[i] < |slots|
    ensures |r| == |list| && forall i :: 0 <= i < |r| ==> r[i] == slots[list[i]]
  {
    seq(|list|, i requires 0 <= i < |list| => slots[list[i]])
  }

  // ---------------------------------------------------------------- lists of slots

  lemma {:induction false} BelowCount(list: seq<nat>, n: nat)
    requires Distinct(list) && forall i :: 0 <= i < |list| ==> list[i] < n
    ensures |list| <= n && (|list| == n <==> forall p: nat :: p < n ==> p in list)
  {
    if list == [] {
      assert n > 0 ==> 0 !in list;
    } else {
      assert list[0] < n;
      var last: nat := n - 1;
      if last in list {
        var k :| 0 <= k < |list| && list[k] == last;
        var rest := Without(list, k);
        assert forall i :: 0 <= i < |rest| ==> rest[i] in list;
        BelowCount(rest, last);
        forall p: nat | p < last ensures p in list <==> p in rest {
        }
      } else {
        assert forall i :: 0 <= i < |list| ==> list[i] in list;
        BelowCount(list, last);
      }
    }
  }

  function Without(list: seq<nat>, i: nat): (r: seq<nat>)
    requires Distinct(list) && i < |list|
    ensures Distinct(r) && forall p :: p in r <==> p in list && p != list[i]
    ensures r == list[..i] + list[i + 1..]
  {
    var r := list[..i] + list[i + 1..];
    assert forall k :: 0 <= k < |list| && k != i ==> r[if k < i then k else k - 1] == list[k];
    r
  }

  /** A slot marked free exists exactly while the list is shorter than the pool. */
  lemma FreeSlotIff(slots: seq<Blinker>, list: seq<nat>)
    requires Distinct(list) && (forall i :: 0 <= i < |list| ==> list[i] < |slots|) && Agree(slots, list)
    ensures (exists p: nat :: p < |slots| && slots[p].location == 0) <==> |list| < |slots|
  {
    BelowCount(list, |slots|);
  }

  /** Linking a slot in front of the head. */
  lemma Pushed(next: seq<int>, head: int, list: seq<nat>, slot: nat)
    requires Linked(next, head, list) && slot < |next| && slot !in list
    ensures Linked(next[slot := head], slot, [slot] + list)
  {
    var longer := [slot] + list;
    BelowCount(longer, |next|);
    forall i | 0 <= i < |longer|
      ensures longer[i] < |next| && next[slot := head][longer[i]] == NodeAt(longer, i + 1)
    {
      if i > 0 {
        assert longer[i] == list[i - 1];
      }
    }
  }

  /** Bypassing position `i`: its predecessor, or the head, takes over its link. */
  lemma Spliced(next: seq<int>, head: int, list: seq<nat>, i: nat)
    requires Linked(next, head, list) && i < |list|
    ensures i == 0 ==> Linked(next, next[list[0]], Without(list, 0))
    ensures i > 0 ==> Linked(next[list[i - 1] := next[list[i]]], head, Without(list, i))
  {
    var rest := Without(list, i);
    if i == 0 {
      assert forall k :: 0 <= k < |rest| ==> rest[k] == list[k + 1];
    } else {
      SplicedInside(next, head, list, i);
    }
  }

  lemma SplicedInside(next: seq<int>, head: int, list: seq<nat>, i: nat)
    requires Linked(next, head, list) && 0 < i < |list|
    ensures Linked(next[list[i - 1] := next[list[i]]], head, Without(list, i))
  {
    var rest := Without(list, i);
    forall k | 0 <= k < |rest|
      ensures rest[k] < |next| && next[list[i - 1] := next[list[i]]][rest[k]] == NodeAt(rest, k + 1)
    {
      assert rest[k] == list[if k < i then k else k + 1];
    }
  }

  /** The tasklet's walk after `i` nodes. */
  ghost function TickedUpTo(s: Board, i: nat): (r: Board)
    requires BoardOk(s) && i <= |s.nodes|
  {
    Board(TickAll(s.nodes[..i]) + s.nodes[i..], DrawAll(s.nodes[..i], s.video))
  }

  lemma TickedUpToEnds(s: Board)
    requires BoardOk(s)
    ensures TickedUpTo(s, 0) == s
    ensures TickedUpTo(s, |s.nodes|) == Ticked(s)
  {
    var none := s.nodes[..0];
    assert TickAll(none) == [] && s.nodes[0..] == s.nodes;
    assert s.nodes[..|s.nodes|] == s.nodes;
  }

  /** One step of the walk. */
  lemma TickedAt(slots: seq<Blinker>, list: seq<nat>, s: Board, i: nat)
    requires Distinct(list) && i < |list| == |s.nodes| && (forall k :: 0 <= k < |list| ==> list[k] < |slots|)
    requires Agree(slots, list) && BoardOk(s)
    requires Values(slots, list) == TickedUpTo(s, i).nodes
    ensures var b := slots[list[i]];
      && b == s.nodes[i]
      && Values(slots[list[i] := Tick(b)], list) == TickedUpTo(s, i + 1).nodes
      && Agree(slots[list[i] := Tick(b)], list)
      && TickedUpTo(s, i + 1).video
         == if Expires(b) then TickedUpTo(s, i).video[b.location := Shown(Tick(b))] else TickedUpTo(s, i).video
  {
    assert Values(slots, list)[i] == slots[list[i]];
    assert s.nodes[..i + 1][..i] == s.nodes[..i];
  }

  lemma HighWord(argument: nat)
    requires argument < WORD * WORD
    ensures argument / WORD < WORD && argument / WORD % WORD == argument / WORD
    ensures argument % WORD % WORD == argument % WORD
  {
  }

  lemma Words(high: word, low: word)
    ensures var argument := high * WORD + low;
      argument < WORD * WORD && argument / WORD == high && argument % WORD == low && high % WORD == high
  {
  }

  const FREED := Blinker(0, NUL, NUL, 0, 0, 0, 0)

  /** Zeroing the slot that was at position `i` of `list` once it is off the list. */
  lemma Freed(slots: seq<Blinker>, next: seq<int>, head: int, list: seq<nat>, i: nat)
    requires Distinct(list) && i < |list| && (forall k :: 0 <= k < |list| ==> list[k] < |slots|) && |next| == |slots|
    requires Linked(next, head, Without(list, i)) && Agree(slots, list)
    ensures var rest := Without(list, i);
      && Linked(next[list[i] := 0], head, rest)
      && Agree(slots[list[i] := FREED], rest)
      && Values(slots[list[i] := FREED], rest) == Values(slots, list)[..i] + Values(slots, list)[i + 1..]
  {
    FreedValues(slots, list, i);
    var rest := Without(list, i);
    assert Agree(slots[list[i] := FREED], rest);
    assert Linked(next[list[i] := 0], head, rest) by {
      assert forall k :: 0 <= k < |rest| ==> rest[k] in rest;
    }
  }

  lemma FreedValues(slots: seq<Blinker>, list: seq<nat>, i: nat)
    requires Distinct(list) && i < |list| && forall k :: 0 <= k < |list| ==> list[k] < |slots|
    ensures var rest := Without(list, i);
      && (forall k :: 0 <= k < |rest| ==> rest[k] < |slots|)
      && Values(slots[list[i] := FREED], rest) == Values(slots, list)[..i] + Values(slots, list)[i + 1..]
  {
    var rest := Without(list, i);
    forall k | 0 <= k < |rest| ensures rest[k] < |slots| && rest[k] != list[i] {
      assert rest[k] == list[if k < i then k else k + 1];
    }
  }

  class Blinks {
    const slots: array<Blinker>
    const next: array<int>
    const video: array<byte>
    var head: int

    /** The linked slots from the head on. */
    ghost var list: seq<nat>

    ghost predicate Shaped()
      reads this, next
    {
      slots.Length == next.Length == POOL && video.Length == LOCATIONS && Linked(next[..], head, list)
    }

    ghost function View(): Board
      requires Shaped()
      reads this, slots, next, video
    {
      Board(Values(slots[..], list), video[..])
    }

    ghost predicate Valid()
      reads this, slots, next, video
    {
      Shaped() && Agree(slots[..], list) && BoardOk(View())
    }

    // -------------------------------------------------------------- the pool

    /** mp1_malloc: the first slot marked free. */
    method Malloc() returns (slot: int)
      requires slots.Length == POOL
      ensures if slot == NULL then forall p :: 0 <= p < POOL ==> slots[p].location != 0
              else 0 <= slot < POOL && slots[slot].location == 0 && forall p :: 0 <= p < slot ==> slots[p].location != 0
    {
      slot := 0;
      while slot < POOL
        invariant 0 <= slot <= POOL
        invariant forall p :: 0 <= p < slot ==> slots[p].location != 0
      {
        if slots[slot].location == 0 {
          return;
        }
        slot := slot + 1;
      }
      return NULL;
    }

    /** mp1_free. */
    method Free(slot: nat)
      requires slot < slots.Length == next.Length
      modifies slots, next
      ensures slots[..] == old(slots[..])[slot := FREED]
      ensures next[..] == old(next[..])[slot := 0]
    {
      slots[slot] := FREED;
      next[slot] := 0;
    }

    // -------------------------------------------------------------- searching

    /** mp1_find_helper. It looks at the low word of its argument. */
    method FindHelper(argument: nat) returns (found: int, ghost i: nat)
      requires Shaped()
      ensures i == Find(View().nodes, argument % WORD) && found == NodeAt(list, i)
    {
      var location := argument % WORD;
      found := head;
      i := 0;
      ghost var nodes := View().nodes;
      assert nodes[0..] == nodes;
      while found != NULL && slots[found].location != location
        invariant 0 <= i <= |list| && found == NodeAt(list, i)
        invariant Find(nodes, location) == i + Find(nodes[i..], location)
        decreases |list| - i
      {
        assert nodes[i..][1..] == nodes[i + 1..];
        found := next[found];
        i := i + 1;
      }
    }

    /** mp1_ioctl_find: a copy of the node. */
    method IoctlFind(location: word) returns (found: Option<Blinker>)
      requires Shaped()
      ensures var nodes := View().nodes;
        var i := Find(nodes, location);
        found == if i < |nodes| then Some(nodes[i]) else None
    {
      var p, i := FindHelper(location);
      found := if p == NULL then None else Some(slots[p]);
    }

    // -------------------------------------------------------------- adding

    /** mp1_ioctl_add. It is refused off the screen and when the pool is used up. The node becomes the
        head, on, with its whole on time to go. Slots and list still agree exactly when the location is
        not 0; a node linked at location 0 stays marked free. */
    method IoctlAdd(location: word, onChar: byte, offChar: byte, onLength: word, offLength: word)
      returns (r: int)
      requires Valid()
      modifies this, slots, next, video
      ensures Shaped() == true
      ensures r == if location >= LOCATIONS || |old(list)| == POOL then -1 else 0
      ensures r == -1 ==> View() == old(View()) && list == old(list)
      ensures r == 0 ==>
        && |list| > 0 && list[0] !in old(list) && list[1..] == old(list)
        && View() == Board([Started(location, onChar, offChar, onLength, offLength)] + old(View()).nodes,
                           old(View()).video[location := onChar])
      ensures Valid() <==> r == -1 || location != 0
      ensures location != 0 ==>
        View() == Act(old(View()), AddNode(Started(location, onChar, offChar, onLength, offLength)))
    {
      if location >= 80 * 25 {
        return -1;
      }
      var slot := Malloc();
      FreeSlotIff(slots[..], list);
      if slot == NULL {
        assert !exists p: nat :: p < POOL && slots[..][p].location == 0;
        return -1;
      }
      assert slots[..][slot].location == 0;
      InsertFront(slot, Started(location, onChar, offChar, onLength, offLength));
      video[location] := onChar;
      return 0;
    }

    /** Fills a free slot and links it in front of the head. */
    method InsertFront(slot: nat, b: Blinker)
      requires Valid() && slot < POOL && slot !in list
      modifies this, slots, next
      ensures Shaped() == true
      ensures list == [slot] + old(list) && View() == Board([b] + old(View()).nodes, old(View()).video)
      ensures Agree(slots[..], list) <==> b.location != 0
    {
      slots[slot] := b;
      next[slot] := head;
      Pushed(old(next[..]), head, list, slot);
      assert next[..] == old(next[..])[slot := head];
      head := slot;
      list := [slot] + list;
      assert slots[..] == old(slots[..])[slot := b];
      assert slot in list;
      forall p: nat | p < POOL && p != slot ensures p in list <==> p in old(list) {
      }
    }

    // -------------------------------------------------------------- removing

    /** mp1_ioctl_remove: takes out the node added last at the location in the low word of the argument, and
        no other, and frees its slot. */
    method IoctlRemove(argument: nat) returns (r: int)
      requires Valid()
      modifies this, slots, next
      ensures Valid() == true
      ensures View() == Removed(old(View()), argument % WORD)
      ensures r == if Find(old(View()).nodes, argument % WORD) == |old(list)| then -1 else 0
    {
      var found, i := FindHelper(argument);
      if found == NULL {
        return -1;
      }
      TakeOut(found, i, argument % WORD);
      return 0;
    }

    /** Unlinks the slot found and frees it. */
    method TakeOut(found: nat, ghost i: nat, ghost location: int)
      requires Valid() && i == Find(View().nodes, location) < |list| && found == list[i]
      modifies this, slots, next
      ensures Valid() == true
      ensures list == Without(old(list), i) && slots[found].location == 0
      ensures View() == Removed(old(View()), location)
    {
      ghost var nodes, removed := View().nodes, Removed(View(), location);
      assert removed == Board(nodes[..i] + nodes[i + 1..], video[..]);
      assert Distinct(list) && forall k :: 0 <= k < |list| ==> list[k] < POOL;
      hide Agree, Ok, Removed, Find, Linked, Distinct;
      Unlink(found, i);
      Freed(slots[..], next[..], head, old(list), i);
      Free(found);
      assert View() == removed;
    }

    /** The search for the node that links to `found`, which is at position `i`, and the unlinking. */
    method Unlink(found: nat, ghost i: nat)
      requires Shaped() && i < |list| && found == list[i]
      modifies this, next
      ensures Shaped() == true
      ensures list == Without(old(list), i)
    {
      Spliced(next[..], head, list, i);
      if head == found {
        head := next[found];
      } else {
        var prev := head;
        ghost var k := 0;
        while next[prev] != found
          invariant 0 <= k < i && prev == list[k]
          decreases i - k
        {
          prev := next[prev];
          k := k + 1;
        }
        next[prev] := next[found];
      }
      list := Without(list, i);
    }

    // -------------------------------------------------------------- the tasklet

    /** The body of the tasklet's loop for one node. */
    method TickNode(p: nat)
      requires p < slots.Length && Ok(slots[p]) && video.Length == LOCATIONS
      modifies slots, video
      ensures slots[..] == old(slots[..])[p := Tick(old(slots[p]))]
      ensures video[..] == if Expires(old(slots[p])) then old(video[..])[slots[p].location := Shown(slots[p])]
                           else old(video[..])
    {
      slots[p] := slots[p].(countdown := if slots[p].countdown == 0 then WORD - 1 else slots[p].countdown - 1);
      if 0 < slots[p].countdown < 0x8000 {
        return;
      }
      if slots[p].status % 2 == 1 {
        video[slots[p].location] := slots[p].offChar;
        slots[p] := slots[p].(countdown := slots[p].offLength, status := 0);
      } else {
        video[slots[p].location] := slots[p].onChar;
        slots[p] := slots[p].(countdown := slots[p].onLength, status := 1);
      }
    }

    /** The tasklet stands before the node at position `i` of its walk over the board `s`. */
    ghost predicate Walking(s: Board, i: nat, p: int)
      reads this, slots, next, video
    {
      && Shaped() && Agree(slots[..], list)
      && BoardOk(s) && |s.nodes| == |list| && i <= |list| && p == NodeAt(list, i)
      && View() == TickedUpTo(s, i)
    }

    /** One round of the tasklet's loop. */
    method TickListed(p: int, ghost s: Board, ghost i: nat) returns (q: int)
      requires Walking(s, i, p) && p != NULL
      modifies slots, video
      ensures i < |list| && Walking(s, i + 1, q) == true
    {
      TickedAt(slots[..], list, s, i);
      assert next[..][list[i]] == NodeAt(list, i + 1);
      TickNode(p);
      q := next[p];
    }

    lemma WalkStarts()
      requires Valid()
      ensures Walking(View(), 0, head)
    {
      TickedUpToEnds(View());
    }

    lemma WalkEnds(s: Board, i: nat)
      requires Walking(s, i, NULL)
      ensures Valid() && View() == Ticked(s)
    {
      TickedUpToEnds(s);
    }

    /** mp1_rtc_tasklet: every node ticks once, and those whose countdown has run out are redrawn. */
    method RtcTasklet()
      requires Valid()
      modifies slots, video
      ensures Valid() == true
      ensures View() == Ticked(old(View()))
    {
      ghost var s := View();
      var p := head;
      ghost var i := 0;
      WalkStarts();
      hide Walking, Ticked, Linked;
      while p != NULL
        invariant i <= |list| && Walking(s, i, p) == true
        decreases |list| - i
      {
        p := TickListed(p, s, i);
        i := i + 1;
      }
      WalkEnds(s, i);
    }

    // -------------------------------------------------------------- synchronising

    /** mp1_ioctl_sync, whose argument holds the source in its high word and the other location in its low
        word. The conditional move that should select the on character tests a sign that the one-bit test
        never leaves, so the off character is drawn in every case. */
    method IoctlSync(argument: nat) returns (r: int)
      requires Valid() && argument < WORD * WORD
      modifies slots, video
      ensures Valid() == true
      ensures View() == Synced(old(View()), argument / WORD, argument % WORD)
      ensures var nodes := old(View()).nodes;
        r == if Find(nodes, argument / WORD) == |list| || Find(nodes, argument % WORD) == |list| then -1 else 0
    {
      HighWord(argument);
      var a, i := FindHelper(argument / WORD);
      if a == NULL {
        return -1;
      }
      var b, j := FindHelper(argument % WORD);
      if b == NULL {
        return -1;
      }
      ghost var synced := Synced(View(), argument / WORD, argument % WORD);
      slots[b] := slots[b].(onLength := slots[a].onLength, offLength := slots[a].offLength,
                            countdown := slots[a].countdown, status := slots[a].status);
      video[slots[b].location] := slots[b].offChar;
      assert View().nodes == synced.nodes;
      return 0;
    }

    // -------------------------------------------------------------- a fresh list

    /** An empty list over a zeroed array of slots. */
    constructor ()
      ensures Valid() && list == [] && forall c :: c in video[..] ==> c == NUL
      ensures fresh(slots) && fresh(next) && fresh(video)
    {
      slots := new Blinker[POOL](_ => FREED);
      next := new int[POOL](_ => 0);
      video := new byte[LOCATIONS](_ => NUL);
      head := NULL;
      list := [];
    }
  }

  // ---------------------------------------------------------------- runs

  /** What fish may ask for: nodes are added on, with their whole on time to go, and not at location 0. */
  predicate Requested(a: Action) {
    a.AddNode? ==> a.b.location != 0 && a.b.status == 1 && a.b.countdown == a.b.onLength
  }

  /** The argument of a sync is put together from two words. */
  method PerformSync(blinks: Blinks, source: word, dest: word)
    requires blinks.Valid()
    modifies blinks.slots, blinks.video
    ensures blinks.Valid() == true
    ensures blinks.View() == Synced(old(blinks.View()), source, dest)
  {
    hide Synced;
    Words(source, dest);
    var argument := source * WORD + dest;
    var r := blinks.IoctlSync(argument);
  }

  method Perform(blinks: Blinks, a: Action)
    requires blinks.Valid() && Requested(a)
    modifies blinks, blinks.slots, blinks.next, blinks.video
    ensures blinks.Valid() == true
    ensures blinks.View() == Act(old(blinks.View()), a)
  {
    hide Added, Removed, Synced, Ticked, Agree, Linked, Values;
    match a
    case AddNode(b) => var r := blinks.IoctlAdd(b.location, b.onChar, b.offChar, b.onLength, b.offLength);
    case RemoveNode(location) => var r := blinks.IoctlRemove(location);
    case SyncNodes(source, dest) => PerformSync(blinks, source, dest);
    case Tasklet => blinks.RtcTasklet();
  }

  /** Through every run list and pool agree, and memory stands for what the run makes of the board. */
  method PerformAll(blinks: Blinks, actions: seq<Action>)
    requires blinks.Valid() && forall i :: 0 <= i < |actions| ==> Requested(actions[i])
    modifies blinks, blinks.slots, blinks.next, blinks.video
    ensures blinks.Valid() == true
    ensures blinks.View() == ActAll(old(blinks.View()), actions)
  {
    var i := 0;
    assert actions[0..] == actions;
    while i < |actions|
      invariant 0 <= i <= |actions|
      invariant blinks.Valid() == true
      invariant ActAll(blinks.View(), actions[i..]) == ActAll(old(blinks.View()), actions)
    {
      assert actions[i..][1..] == actions[i + 1..];
      Perform(blinks, actions[i]);
      i := i + 1;
    }
  }
}
