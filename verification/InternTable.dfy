/** The intern table: open addressing with linear probing. Whatever the hash, it is
    a set of strings, each with one handle. */
module InternTable {

  type Text = seq<int>

  /** An interned string: its handle, its bytes, and their hash. */
  datatype Entry = Entry(handle: nat, text: Text, hash: nat)

  datatype Slot = Empty | Full(e: Entry)

  function Home(hash: nat, cap: nat): (i: nat)
    requires cap > 0
    ensures i < cap
  {
    hash % cap
  }

  /** The `k`th slot of the probe that starts at `home`. */
  function Probe(home: nat, k: nat, cap: nat): (i: nat)
    requires home < cap
    ensures i < cap
  {
    if home + k < cap then home + k else if home + k - cap < cap then home + k - cap else 0
  }

  /** How far along the probe from `home` slot `i` comes. */
  function Distance(home: nat, i: nat, cap: nat): (k: nat)
    requires home < cap && i < cap
    ensures k < cap && Probe(home, k, cap) == i
    ensures forall j: nat :: j < cap && Probe(home, j, cap) == i ==> j == k
  {
    if i >= home then i - home else i + cap - home
  }

  /** One step of the probe wraps around. */
  lemma ProbeNext(home: nat, k: nat, cap: nat)
    requires home < cap && k < cap
    ensures (Probe(home, k, cap) + 1) % cap == Probe(home, k + 1, cap)
  {
    var i := Probe(home, k, cap);
    if i + 1 < cap {
      SmallMod(i + 1, cap);
    } else {
      assert cap % cap == 0;
    }
  }

  lemma SmallMod(i: nat, cap: nat)
    requires i < cap
    ensures i % cap == i
  {
  }

  /** No gap between an entry's home slot and its place. */
  predicate Reachable(slots: seq<Slot>, i: nat)
    requires i < |slots| && slots[i].Full?
  {
    var home := Home(slots[i].e.hash, |slots|);
    forall k: nat :: k < Distance(home, i, |slots|) ==> slots[Probe(home, k, |slots|)].Full?
  }

  function CountFull(slots: seq<Slot>): nat {
    if slots == [] then 0 else (if slots[0].Full? then 1 else 0) + CountFull(slots[1..])
  }

  predicate Sound(hash: Text -> nat, slots: seq<Slot>) {
    && |slots| > 0
    && (forall i :: 0 <= i < |slots| && slots[i].Full? ==> slots[i].e.hash == hash(slots[i].e.text) && Reachable(slots, i))
    && (forall i, j :: 0 <= i < j < |slots| && slots[i].Full? && slots[j].Full? ==> slots[i].e.text != slots[j].e.text)
  }

  predicate Holds(slots: seq<Slot>, e: Entry) {
    exists i :: 0 <= i < |slots| && slots[i] == Full(e)
  }

  predicate HasText(slots: seq<Slot>, s: Text) {
    exists i :: 0 <= i < |slots| && slots[i].Full? && slots[i].e.text == s
  }

  lemma {:induction false} FullCount(slots: seq<Slot>)
    ensures CountFull(slots) <= |slots|
    ensures CountFull(slots) < |slots| ==> exists i :: 0 <= i < |slots| && slots[i].Empty?
  {
    if slots != [] {
      FullCount(slots[1..]);
      if CountFull(slots[1..]) < |slots[1..]| {
        var i :| 0 <= i < |slots[1..]| && slots[1..][i].Empty?;
        assert slots[i + 1].Empty?;
      }
      if slots[0].Empty? {
        assert slots[0].Empty?;
      }
    }
  }

  lemma {:induction false} CountPut(slots: seq<Slot>, i: nat, e: Entry)
    requires i < |slots| && slots[i].Empty?
    ensures CountFull(slots[i := Full(e)]) == CountFull(slots) + 1
    decreases |slots|
  {
    if i == 0 {
      assert slots[i := Full(e)][1..] == slots[1..];
    } else {
      assert slots[i := Full(e)][1..] == slots[1..][i - 1 := Full(e)];
      CountPut(slots[1..], i - 1, e);
    }
  }

  /** A probe for `s` that has passed `k` other entries. */
  predicate Passed(slots: seq<Slot>, home: nat, k: nat, s: Text)
    requires home < |slots|
  {
    forall j: nat :: j < k ==> slots[Probe(home, j, |slots|)].Full? && slots[Probe(home, j, |slots|)].e.text != s
  }

  /** An empty slot ends the search: the string is nowhere. */
  lemma NotThere(hash: Text -> nat, slots: seq<Slot>, s: Text, k: nat)
    requires Sound(hash, slots) && k < |slots|
    requires var home := Home(hash(s), |slots|); Passed(slots, home, k, s) && slots[Probe(home, k, |slots|)].Empty?
    ensures !HasText(slots, s)
  {
    forall i | 0 <= i < |slots| && slots[i].Full? ensures slots[i].e.text != s {
      NotAt(hash, slots, s, k, i);
    }
  }

  lemma NotAt(hash: Text -> nat, slots: seq<Slot>, s: Text, k: nat, i: nat)
    requires Sound(hash, slots) && k < |slots| && i < |slots| && slots[i].Full?
    requires var home := Home(hash(s), |slots|); Passed(slots, home, k, s) && slots[Probe(home, k, |slots|)].Empty?
    ensures slots[i].e.text != s
  {
    var home := Home(hash(s), |slots|);
    var d := Distance(home, i, |slots|);
    assert d < k ==> slots[Probe(home, d, |slots|)].e.text != s;
    assert Reachable(slots, i);
    assert slots[i].e.hash == hash(slots[i].e.text);
  }

  /** Putting a new string where its probe found a gap. */
  lemma PutSound(hash: Text -> nat, slots: seq<Slot>, e: Entry, k: nat)
    requires Sound(hash, slots) && k < |slots| && e.hash == hash(e.text) && !HasText(slots, e.text)
    requires var home := Home(e.hash, |slots|);
             && (forall j: nat :: j < k ==> slots[Probe(home, j, |slots|)].Full?)
             && slots[Probe(home, k, |slots|)].Empty?
    ensures var i := Probe(Home(e.hash, |slots|), k, |slots|);
            var next := slots[i := Full(e)];
            && Sound(hash, next) && CountFull(next) == CountFull(slots) + 1
            && forall x :: Holds(next, x) <==> Holds(slots, x) || x == e
  {
    var cap := |slots|;
    var home := Home(e.hash, cap);
    var i := Probe(home, k, cap);
    var next := slots[i := Full(e)];
    CountPut(slots, i, e);
    assert Distance(home, i, cap) == k;
    forall m | 0 <= m < cap && next[m].Full? ensures Reachable(next, m) {
      if m != i {
        assert Reachable(slots, m);
      }
    }
    forall x ensures Holds(next, x) <==> Holds(slots, x) || x == e {
      if Holds(slots, x) {
        var m :| 0 <= m < cap && slots[m] == Full(x);
        assert next[m] == Full(x);
      }
      if x == e {
        assert next[i] == Full(e);
      }
      if Holds(next, x) {
        var m :| 0 <= m < cap && next[m] == Full(x);
        assert m == i || slots[m] == Full(x);
      }
    }
  }

  lemma {:induction false} AllEmpty(slots: seq<Slot>)
    requires forall i :: 0 <= i < |slots| ==> slots[i].Empty?
    ensures CountFull(slots) == 0
    decreases |slots|
  {
    if slots != [] {
      AllEmpty(slots[1..]);
    }
  }

  lemma {:induction false} CountSplit(a: seq<Slot>, b: seq<Slot>)
    ensures CountFull(a + b) == CountFull(a) + CountFull(b)
    decreases |a|
  {
    if a == [] {
      assert a + b == b;
    } else {
      assert (a + b)[1..] == a[1..] + b;
      CountSplit(a[1..], b);
    }
  }

  lemma SlotsSplit(slots: seq<Slot>, i: nat)
    requires i < |slots|
    ensures slots[..i + 1] == slots[..i] + [slots[i]] && slots == slots[..i] + slots[i..]
  {
  }

  /** One more slot of a table that is copied. */
  lemma OneMore(slots: seq<Slot>, i: nat)
    requires i < |slots|
    ensures CountFull(slots[..i + 1]) == CountFull(slots[..i]) + if slots[i].Full? then 1 else 0
    ensures CountFull(slots[..i]) <= CountFull(slots)
    ensures forall x :: Holds(slots[..i + 1], x) <==> Holds(slots[..i], x) || slots[i] == Full(x)
  {
    SlotsSplit(slots, i);
    CountSplit(slots[..i], [slots[i]]);
    CountSplit(slots[..i], slots[i..]);
    forall x ensures Holds(slots[..i + 1], x) <==> Holds(slots[..i], x) || slots[i] == Full(x) {
      if Holds(slots[..i], x) {
        var m :| 0 <= m < i && slots[..i][m] == Full(x);
        assert slots[..i + 1][m] == Full(x);
      }
      if slots[i] == Full(x) {
        assert slots[..i + 1][i] == Full(x);
      }
      if Holds(slots[..i + 1], x) {
        var m :| 0 <= m < i + 1 && slots[..i + 1][m] == Full(x);
        assert m == i || slots[..i][m] == Full(x);
      }
    }
  }

  /** A string not yet copied is not in the copy. */
  lemma NotCopied(hash: Text -> nat, was: seq<Slot>, i: nat, copy: seq<Slot>)
    requires Sound(hash, was) && i < |was| && was[i].Full?
    requires forall x :: Holds(copy, x) <==> Holds(was[..i], x)
    ensures !HasText(copy, was[i].e.text)
  {
    forall m | 0 <= m < |copy| && copy[m].Full? ensures copy[m].e.text != was[i].e.text {
      assert Holds(copy, copy[m].e);
      var n :| 0 <= n < i && was[..i][n] == Full(copy[m].e);
      assert was[n] == copy[m];
    }
  }

  lemma TextHeld(slots: seq<Slot>, s: Text)
    ensures HasText(slots, s) <==> exists x :: Holds(slots, x) && x.text == s
  {
    if HasText(slots, s) {
      var i :| 0 <= i < |slots| && slots[i].Full? && slots[i].e.text == s;
      assert Holds(slots, slots[i].e);
    }
    if x :| Holds(slots, x) && x.text == s {
      var i :| 0 <= i < |slots| && slots[i] == Full(x);
      assert slots[i].Full? && slots[i].e.text == s;
    }
  }

  lemma SameTexts(a: seq<Slot>, b: seq<Slot>)
    requires forall x :: Holds(a, x) <==> Holds(b, x)
    ensures forall s :: HasText(a, s) <==> HasText(b, s)
  {
    forall s ensures HasText(a, s) <==> HasText(b, s) {
      TextHeld(a, s);
      TextHeld(b, s);
    }
  }

  class Table {
    const hash: Text -> nat
    var entries: array<Slot>
    var count: nat
    var handles: nat               // how many strings the arena holds
    ghost var ids: map<Text, nat>  // the set, as the caller sees it

    ghost predicate Valid()
      reads this, entries
    {
      && Sound(hash, entries[..]) && count == CountFull(entries[..])
      && entries.Length >= 256 && entries.Length % 2 == 0 && count * 2 <= entries.Length
      && (forall s :: s in ids <==> HasText(entries[..], s))
      && (forall i :: 0 <= i < entries.Length && entries[i].Full? ==> entries[i].e.text in ids && ids[entries[i].e.text] == entries[i].e.handle)
      && (forall s :: s in ids ==> ids[s] < handles)
      && (forall s, u :: s in ids && u in ids && ids[s] == ids[u] ==> s == u)
    }

    constructor (hash: Text -> nat)
      ensures Valid() && ids == map[] && fresh(entries)
    {
      this.hash := hash;
      entries := new Slot[256](_ => Empty);
      count, handles, ids := 0, 0, map[];
      new;
      AllEmpty(entries[..]);
    }

    /** Walks a probe to its first gap. */
    static method FindGap(slots: array<Slot>, home: nat) returns (idx: nat, ghost k: nat)
      requires home < slots.Length && CountFull(slots[..]) < slots.Length
      ensures k < slots.Length && idx == Probe(home, k, slots.Length) && slots[idx].Empty?
      ensures forall j: nat :: j < k ==> slots[Probe(home, j, slots.Length)].Full?
    {
      hide CountFull;
      var cap := slots.Length;
      FullCount(slots[..]);
      ghost var gap :| 0 <= gap < cap && slots[gap].Empty?;
      ghost var far := Distance(home, gap, cap);
      idx := home;
      k := 0;
      while slots[idx].Full?
        invariant idx < cap && k <= far && idx == Probe(home, k, cap)
        invariant forall j: nat :: j < k ==> slots[Probe(home, j, cap)].Full?
        decreases far - k
      {
        ProbeNext(home, k, cap);
        idx := (idx + 1) % cap;
        k := k + 1;
      }
    }

    /** Puts an entry where its probe finds a gap. */
    static method Place(hash: Text -> nat, slots: array<Slot>, e: Entry)
      requires Sound(hash, slots[..]) && e.hash == hash(e.text) && !HasText(slots[..], e.text)
      requires CountFull(slots[..]) < slots.Length
      modifies slots
      ensures Sound(hash, slots[..]) && CountFull(slots[..]) == old(CountFull(slots[..])) + 1
      ensures forall x :: Holds(slots[..], x) <==> old(Holds(slots[..], x)) || x == e
    {
      hide Sound, CountFull, Reachable, HasText, Holds;
      assert slots.Length > 0;
      var idx, k := FindGap(slots, Home(e.hash, slots.Length));
      PutSound(hash, slots[..], e, k);
      slots[idx] := Full(e);
      assert slots[..] == old(slots[..])[idx := Full(e)];
    }

    /** Twice the room, with the same strings. */
    method Grow()
      requires Valid()
      modifies this`entries
      ensures Valid() && fresh(entries) && count * 2 < entries.Length
      ensures forall x :: Holds(entries[..], x) <==> old(Holds(entries[..], x))
    {
      var bigger := new Slot[entries.Length * 2](_ => Empty);
      AllEmpty(bigger[..]);
      ghost var was := entries[..];
      assert was[..0] == [];
      for i := 0 to entries.Length
        modifies bigger
        invariant entries[..] == was && Sound(hash, bigger[..]) && CountFull(bigger[..]) == CountFull(was[..i])
        invariant forall x :: Holds(bigger[..], x) <==> Holds(was[..i], x)
      {
        OneMore(was, i);
        if entries[i].Full? {
          NotCopied(hash, was, i, bigger[..]);
          Place(hash, bigger, entries[i].e);
        }
      }
      assert was[..|was|] == was;
      SameTexts(was, bigger[..]);
      forall k | 0 <= k < bigger.Length && bigger[k].Full?
        ensures bigger[k].e.text in ids && ids[bigger[k].e.text] == bigger[k].e.handle
      {
        assert Holds(bigger[..], bigger[..][k].e);
        var m :| 0 <= m < |was| && was[m] == Full(bigger[k].e);
        assert entries[m] == was[m];
      }
      entries := bigger;
    }

    /** Walks the probe of `s` to it or to a gap. */
    method Search(s: Text, h: nat) returns (idx: nat, found: bool, ghost k: nat)
      requires Valid() && h == hash(s)
      ensures idx < entries.Length && k < entries.Length
      ensures found ==> entries[idx].Full? && entries[idx].e.text == s
      ensures !found ==> s !in ids && entries[idx].Empty?
                         && (var home := Home(h, entries.Length);
                             idx == Probe(home, k, entries.Length) && Passed(entries[..], home, k, s))
    {
      hide CountFull, Reachable, Home;
      var cap := entries.Length;
      var home := Home(h, cap);
      FullCount(entries[..]);
      ghost var gap :| 0 <= gap < cap && entries[gap].Empty?;
      ghost var far := Distance(home, gap, cap);
      idx := home;
      k := 0;
      while true
        invariant idx < cap && k <= far && idx == Probe(home, k, cap)
        invariant Passed(entries[..], home, k, s)
        decreases far - k
      {
        if entries[idx].Empty? {
          NotThere(hash, entries[..], s, k);
          return idx, false, k;
        }
        var e := entries[idx].e;
        if e.hash == h && e.text == s {
          return idx, true, k;
        }
        assert e.hash == hash(e.text);
        ProbeNext(home, k, cap);
        idx := (idx + 1) % cap;
        k := k + 1;
      }
    }

    /** The handle of a string: the one it has, or a new one. */
    method Intern(s: Text) returns (handle: nat)
      requires Valid()
      modifies this, entries
      ensures Valid() && (entries == old(entries) || fresh(entries))
      ensures s in ids && ids[s] == handle
      ensures if s in old(ids) then ids == old(ids) else ids == old(ids)[s := handle]
    {
      hide Sound, CountFull, Reachable, HasText, Holds, Home;
      if count * 2 >= entries.Length {
        Grow();
      }
      var h := hash(s);
      var idx, found, k := Search(s, h);
      if found {
        return entries[idx].e.handle;
      }
      handle := handles;
      Insert(idx, Entry(handle, s, h), k);
    }

    /** A new string goes into the gap its probe found. */
    method Insert(idx: nat, e: Entry, ghost k: nat)
      requires Valid() && count * 2 < entries.Length && k < entries.Length
      requires e.handle == handles && e.hash == hash(e.text) && e.text !in ids
      requires var home := Home(e.hash, entries.Length);
               idx == Probe(home, k, entries.Length) && Passed(entries[..], home, k, e.text) && entries[idx].Empty?
      modifies this, entries
      ensures Valid() && entries == old(entries) && ids == old(ids)[e.text := e.handle]
    {
      PutSound(hash, entries[..], e, k);
      ghost var next := entries[..][idx := Full(e)];
      forall s ensures HasText(next, s) <==> HasText(entries[..], s) || s == e.text {
        TextHeld(next, s);
        TextHeld(entries[..], s);
      }
      entries[idx] := Full(e);
      assert entries[..] == next;
      count := count + 1;
      handles := handles + 1;
      ids := ids[e.text := e.handle];
    }
  }

  /** Any run of calls: two of them return the same handle exactly when their strings
      are equal. */
  method InternAll(hash: Text -> nat, list: seq<Text>) returns (handles: seq<nat>)
    ensures |handles| == |list|
    ensures forall i, j :: 0 <= i < |list| && 0 <= j < |list| ==> (handles[i] == handles[j] <==> list[i] == list[j])
  {
    var t := new Table(hash);
    handles := [];
    for i := 0 to |list|
      invariant t.Valid() && fresh(t) && fresh(t.entries) && |handles| == i
      invariant forall j :: 0 <= j < i ==> list[j] in t.ids && t.ids[list[j]] == handles[j]
    {
      var h := t.Intern(list[i]);
      handles := handles + [h];
    }
  }
}
