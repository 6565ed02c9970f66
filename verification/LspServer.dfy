/** The server at work: every message keeps its invariant, and whenever no edit is
    pending its answers are those of the current text. */
module LspServer {
  import opened LspModel

  // ----- facts about the unit list -----

  /** Replacing one unit by one that owns fresh analyses, or some of the same. */
  lemma Replaced(units: seq<UnitEntry>, at: nat, u: UnitEntry, newest: nat)
    requires at < |units| && Apart(units) && !Owns(units, newest)
    requires Owned(u) <= Owned(units[at]) + {newest}
    ensures Apart(units[at := u])
    ensures forall id: nat :: Owns(units[at := u], id) <==> id in Owned(u) || (Owns(units, id) && id !in Owned(units[at]))
  {
    var after := units[at := u];
    forall i | 0 <= i < |units| && i != at ensures Owned(after[i]) !! Owned(u) {
      assert newest !in Owned(units[i]);
      assert Owned(units[i]) !! Owned(units[at]);
    }
    forall id: nat ensures Owns(after, id) <==> id in Owned(u) || (Owns(units, id) && id !in Owned(units[at])) {
      if Owns(after, id) {
        var i :| 0 <= i < |after| && id in Owned(after[i]);
        if i != at {
          assert id in Owned(units[i]);
          assert Owned(units[i]) !! Owned(units[at]);
        }
      }
      if id in Owned(u) {
        assert id in Owned(after[at]);
      }
      if Owns(units, id) && id !in Owned(units[at]) {
        var i :| 0 <= i < |units| && id in Owned(units[i]);
        assert id in Owned(after[i]);
      }
    }
  }

  /** Dropping a unit, the last one taking its place. */
  lemma Dropped(units: seq<UnitEntry>, at: nat)
    requires at < |units| && Apart(units)
    ensures Apart(units[at := units[|units| - 1]][..|units| - 1])
    ensures forall id: nat :: Owns(units[at := units[|units| - 1]][..|units| - 1], id) <==> Owns(units, id) && id !in Owned(units[at])
  {
    var n := |units| - 1;
    var after := units[at := units[n]][..n];
    forall id: nat ensures Owns(after, id) <==> Owns(units, id) && id !in Owned(units[at]) {
      if Owns(after, id) {
        var i :| 0 <= i < n && id in Owned(after[i]);
        var was := if i == at then n else i;
        assert id in Owned(units[was]);
        assert Owned(units[was]) !! Owned(units[at]);
      }
      if Owns(units, id) && id !in Owned(units[at]) {
        var i :| 0 <= i < |units| && id in Owned(units[i]);
        assert id in Owned(after[if i == n then at else i]);
      }
    }
  }

  lemma Anchored(docs: seq<Doc>, units: seq<UnitEntry>)
    requires forall u :: 0 <= u < |units| ==> HasKey(docs, units[u].key)
    ensures units != [] ==> docs != []
  {
    if units != [] {
      assert HasKey(docs, units[0].key);
    }
  }

  lemma WhoRemains(units: seq<UnitEntry>, at: nat)
    requires at < |units| && DistinctUnits(units)
    ensures DistinctUnits(units[at := units[|units| - 1]][..|units| - 1])
    ensures forall v :: v in units[at := units[|units| - 1]][..|units| - 1] <==> v in units && v.key != units[at].key
  {
    var n := |units| - 1;
    var after := units[at := units[n]][..n];
    forall i, j | 0 <= i < j < n ensures after[i].key != after[j].key {
      assert units[if i == at then n else i].key != units[if j == at then n else j].key;
    }
    forall v ensures v in after <==> v in units && v.key != units[at].key {
      if v in after {
        var j :| 0 <= j < n && after[j] == v;
        assert v == units[if j == at then n else j];
      }
      if v in units && v.key != units[at].key {
        var j :| 0 <= j < |units| && units[j] == v;
        assert v == after[if j == n then at else j];
      }
    }
  }

  lemma Appended(units: seq<UnitEntry>, u: UnitEntry)
    requires Apart(units) && Owned(u) == {}
    ensures Apart(units + [u]) && forall id: nat :: Owns(units + [u], id) <==> Owns(units, id)
  {
    forall id: nat ensures Owns(units + [u], id) <==> Owns(units, id) {
      if Owns(units, id) {
        var i :| 0 <= i < |units| && id in Owned(units[i]);
        assert id in Owned((units + [u])[i]);
      }
    }
  }

  // ----- publishing -----

  lemma {:induction false} OfFileMembers(agg: seq<Diag>, f: File)
    ensures OfFile(agg, f) == [] <==> !exists d :: d in agg && d.file == f
  {
    if agg != [] {
      OfFileMembers(agg[1..], f);
      if d :| d in agg && d.file == f {
        assert d == agg[0] || d in agg[1..];
      }
      assert agg[0] in agg;
      assert forall d :: d in agg[1..] ==> d in agg;
    }
  }

  lemma {:induction false} OfFileOneMore(agg: seq<Diag>, d: Diag, f: File)
    ensures OfFile(agg + [d], f) == OfFile(agg, f) + if d.file == f then [d] else []
  {
    if agg != [] {
      OfFileOneMore(agg[1..], d, f);
      assert (agg + [d])[1..] == agg[1..] + [d];
    }
  }

  /** A diagnostic of this file is among them. */
  predicate Met(agg: seq<Diag>, f: File) {
    exists d :: d in agg && d.file == f
  }

  lemma MetStep(agg: seq<Diag>, i: nat)
    requires i < |agg|
    ensures forall f: File :: Met(agg[..i + 1], f) <==> Met(agg[..i], f) || f == agg[i].file
  {
    assert agg[..i + 1] == agg[..i] + [agg[i]];
    assert agg[i] in agg[..i + 1];
  }

  lemma NotMet(agg: seq<Diag>, i: nat)
    requires i < |agg|
    ensures !Met(agg[..i], agg[i].file) ==> forall d :: d in agg[..i] ==> d.file != agg[i].file
  {
  }

  lemma OpenStep(docs: seq<Doc>, i: nat)
    requires i < |docs|
    ensures forall f: File :: IsOpen(docs[..i + 1], f) <==> IsOpen(docs[..i], f) || f == docs[i].file
  {
    forall f: File ensures IsOpen(docs[..i + 1], f) <==> IsOpen(docs[..i], f) || f == docs[i].file {
      if j :| 0 <= j < i && docs[..i][j].file == f {
        assert docs[..i + 1][j].file == f;
      }
      var more := docs[..i + 1];
      if j :| 0 <= j < |more| && more[j].file == f {
        if j < i {
          assert docs[..i][j].file == f;
        }
      }
      assert docs[..i + 1][i].file == docs[i].file;
    }
  }

  // ----- one flush -----

  predicate Touched(docs: seq<Doc>, u: UnitEntry) {
    exists i :: 0 <= i < |docs| && docs[i].dirty && docs[i].file in u.files
  }

  /** Units in `done` have been analyzed anew; the others are as they were. */
  ghost predicate Progress(setup: Setup, docs: seq<Doc>, env: Env, was: seq<UnitEntry>, units: seq<UnitEntry>, done: seq<Key>) {
    && |was| <= |units| && DistinctUnits(units)
    && (forall u :: 0 <= u < |was| ==> units[u].key == was[u].key && (units[u].key !in done ==> units[u] == was[u]))
    && (forall u :: |was| <= u < |units| ==> units[u].key in done)
    && (forall u :: 0 <= u < |units| && units[u].key in done ==> Current(setup, docs, env, units[u]))
  }

  /** An edit concerns the unit: of a document that forms it, or of one it has on
      record. A document that came to form another unit counts as edited. */
  predicate Concerned(before: seq<Doc>, after: seq<Doc>, u: UnitEntry)
    requires |before| == |after|
  {
    exists i :: 0 <= i < |after| && (before[i].dirty || before[i].key != after[i].key)
                && (after[i].key == Some(u.key) || after[i].file in u.files)
  }

  predicate HasDirtyKey(docs: seq<Doc>, k: Key) {
    exists i :: 0 <= i < |docs| && docs[i].dirty && docs[i].key == Some(k)
  }

  /** Only units that an edit concerns were analyzed. */
  ghost predicate Sparing(docs: seq<Doc>, was: seq<UnitEntry>, done: seq<Key>) {
    forall u :: 0 <= u < |was| && was[u].key in done ==> HasDirtyKey(docs, was[u].key) || Touched(docs, was[u])
  }

  /** Every unit that an edit could concern and that has an open document. */
  ghost predicate Caught(docs: seq<Doc>, units: seq<UnitEntry>, done: seq<Key>) {
    && (forall i :: 0 <= i < |docs| && docs[i].dirty ==> docs[i].key.Some? && docs[i].key.value in done)
    && (forall u :: 0 <= u < |units| && units[u].key !in done ==> !HasKey(docs, units[u].key) || !Touched(docs, units[u]))
    && (forall k :: k in done ==> HasUnit(units, k))
  }

  lemma {:induction false} OneMore(setup: Setup, docs: seq<Doc>, env: Env, was: seq<UnitEntry>, units: seq<UnitEntry>, done: seq<Key>, at: nat, u: UnitEntry)
    requires Progress(setup, docs, env, was, units, done)
    requires at < |units| && u.key == units[at].key && Current(setup, docs, env, u)
    ensures Progress(setup, docs, env, was, units[at := u], done + [u.key])
  {
    hide Current;
    var after := units[at := u];
    forall i, j | 0 <= i < j < |after| ensures after[i].key != after[j].key {
      assert units[i].key != units[j].key;
    }
    forall i | 0 <= i < |after| && after[i].key in done + [u.key] ensures Current(setup, docs, env, after[i]) {
      if i != at {
        assert units[i].key != units[at].key;
      }
    }
  }

  lemma SparingMore(docs: seq<Doc>, was: seq<UnitEntry>, done: seq<Key>, u: UnitEntry)
    requires Sparing(docs, was, done) && Touched(docs, u)
    requires forall i :: 0 <= i < |was| && was[i].key == u.key ==> was[i] == u
    ensures Sparing(docs, was, done + [u.key])
  {
  }

  /** What a flush leaves: documents and units agree again. */
  lemma Settled(setup: Setup, env: Env, was: seq<UnitEntry>, before: seq<Doc>, refreshed: seq<Doc>, clean: seq<Doc>,
                units: seq<UnitEntry>, kept: seq<UnitEntry>, done: seq<Key>)
    requires DistinctDocs(before) && SameBuffers(before, refreshed) && SameBuffers(refreshed, clean)
    requires forall i :: 0 <= i < |before| && !before[i].dirty ==> before[i].key.Some? && HasUnit(was, before[i].key.value)
    requires forall u, i :: 0 <= u < |was| && 0 <= i < |before| && !before[i].dirty ==> ReadsDoc(setup, was[u], before[i])
    requires forall u :: 0 <= u < |was| ==> was[u].result.Some? && UnitSound(was[u])
    requires forall i :: 0 <= i < |refreshed| ==> refreshed[i].key.Some? && clean[i].key == refreshed[i].key
    requires forall i :: 0 <= i < |refreshed| ==> refreshed[i].dirty == (before[i].dirty || before[i].key != refreshed[i].key)
    requires Progress(setup, refreshed, env, was, units, done) && Caught(refreshed, units, done) && Sparing(refreshed, was, done)
    requires forall u :: u in kept <==> u in units && HasKey(clean, u.key)
    ensures forall i :: 0 <= i < |clean| ==> HasUnit(kept, clean[i].key.value)
    ensures forall u, i :: 0 <= u < |kept| && 0 <= i < |clean| ==> ReadsDoc(setup, kept[u], clean[i])
    ensures forall u :: 0 <= u < |kept| ==> kept[u].result.Some? && UnitSound(kept[u])
    ensures forall u :: u in was && HasKey(clean, u.key) && !Concerned(before, clean, u) ==> u in kept
    ensures forall u :: u in kept ==> u in was || Current(setup, clean, env, u)
    ensures forall u, i :: u in kept && 0 <= i < |clean| && before[i].dirty && clean[i].key == Some(u.key) ==> Current(setup, clean, env, u)
  {
    forall i | 0 <= i < |clean| ensures HasUnit(kept, clean[i].key.value) {
      var k := clean[i].key.value;
      assert HasUnit(units, k) by {
        if !refreshed[i].dirty {
          var w :| 0 <= w < |was| && was[w].key == k;
          assert units[w].key == k;
        }
      }
      var u :| 0 <= u < |units| && units[u].key == k;
      assert HasKey(clean, k);
      assert units[u] in kept;
    }
    forall u | u in kept
      ensures u.result.Some? && UnitSound(u) && (u in was || Current(setup, clean, env, u))
      ensures forall i :: 0 <= i < |clean| ==> ReadsDoc(setup, u, clean[i])
      ensures forall i :: 0 <= i < |clean| && before[i].dirty && clean[i].key == Some(u.key) ==> Current(setup, clean, env, u)
    {
      var at :| 0 <= at < |units| && units[at] == u;
      if u.key in done {
        CurrentSame(setup, refreshed, clean, env, u);
        forall i | 0 <= i < |clean| ensures ReadsDoc(setup, u, clean[i]) {
          CurrentReads(setup, clean, env, u, clean[i]);
        }
      } else {
        SkippedReads(setup, env, was, before, refreshed, clean, units, done, at);
      }
    }
    forall u | u in was && HasKey(clean, u.key) && !Concerned(before, clean, u) ensures u in kept {
      var at :| 0 <= at < |was| && was[at] == u;
      if u.key in done {
        SparedStays(before, refreshed, clean, was, done, at);
      }
      assert units[at] == u;
    }
  }

  lemma SparedStays(before: seq<Doc>, refreshed: seq<Doc>, clean: seq<Doc>, was: seq<UnitEntry>, done: seq<Key>, at: nat)
    requires SameBuffers(before, refreshed) && SameBuffers(refreshed, clean) && at < |was|
    requires forall i :: 0 <= i < |refreshed| ==> clean[i].key == refreshed[i].key
    requires forall i :: 0 <= i < |refreshed| ==> refreshed[i].dirty == (before[i].dirty || before[i].key != refreshed[i].key)
    requires Sparing(refreshed, was, done) && was[at].key in done
    ensures Concerned(before, clean, was[at])
  {
    var u := was[at];
    if HasDirtyKey(refreshed, u.key) {
      var i :| 0 <= i < |refreshed| && refreshed[i].dirty && refreshed[i].key == Some(u.key);
      assert clean[i].key == Some(u.key);
    } else {
      var i :| 0 <= i < |refreshed| && refreshed[i].dirty && refreshed[i].file in u.files;
      assert clean[i].file in u.files;
    }
  }

  /** A unit the flush skipped reads no changed file. */
  lemma SkippedReads(setup: Setup, env: Env, was: seq<UnitEntry>, before: seq<Doc>, refreshed: seq<Doc>, clean: seq<Doc>,
                     units: seq<UnitEntry>, done: seq<Key>, at: nat)
    requires SameBuffers(before, refreshed) && SameBuffers(refreshed, clean)
    requires forall u, i :: 0 <= u < |was| && 0 <= i < |before| && !before[i].dirty ==> ReadsDoc(setup, was[u], before[i])
    requires forall u :: 0 <= u < |was| ==> was[u].result.Some? && UnitSound(was[u])
    requires forall i :: 0 <= i < |refreshed| ==> refreshed[i].key.Some? && clean[i].key == refreshed[i].key
    requires forall i :: 0 <= i < |refreshed| ==> refreshed[i].dirty == (before[i].dirty || before[i].key != refreshed[i].key)
    requires Progress(setup, refreshed, env, was, units, done) && Caught(refreshed, units, done)
    requires at < |units| && units[at].key !in done && HasKey(clean, units[at].key)
    ensures units[at] in was && units[at].result.Some? && UnitSound(units[at])
    ensures forall i :: 0 <= i < |clean| ==> ReadsDoc(setup, units[at], clean[i])
    ensures forall i :: 0 <= i < |clean| && before[i].dirty ==> clean[i].key != Some(units[at].key)
  {
    hide Current;
    var u := units[at];
    assert u == was[at];
    assert HasKey(refreshed, u.key) by {
      var i :| 0 <= i < |clean| && clean[i].key == Some(u.key);
      assert refreshed[i].key == Some(u.key);
    }
    assert !Touched(refreshed, u);
    forall i | 0 <= i < |clean| ensures ReadsDoc(setup, u, clean[i]) {
      if !before[i].dirty && !refreshed[i].dirty {
        assert ReadsDoc(setup, was[at], before[i]);
      } else {
        assert refreshed[i].dirty;
        assert refreshed[i].file !in u.files && refreshed[i].key.value in done;
      }
    }
  }

  // ----- what is open -----

  ghost predicate HasText(docs: seq<Doc>, f: File, text: Text) {
    exists i :: 0 <= i < |docs| && docs[i].file == f && docs[i].text == text
  }

  lemma SameTexts(docs: seq<Doc>, more: seq<Doc>)
    requires SameBuffers(docs, more)
    ensures forall f: File :: IsOpen(docs, f) == IsOpen(more, f)
    ensures forall f: File, t: Text :: HasText(docs, f, t) == HasText(more, f, t)
  {
    forall f: File ensures IsOpen(docs, f) == IsOpen(more, f) {
      if i :| 0 <= i < |docs| && docs[i].file == f { assert more[i].file == f; }
      if i :| 0 <= i < |more| && more[i].file == f { assert docs[i].file == f; }
    }
    forall f: File, t: Text ensures HasText(docs, f, t) == HasText(more, f, t) {
      if i :| 0 <= i < |docs| && docs[i].file == f && docs[i].text == t { assert more[i].file == f && more[i].text == t; }
      if i :| 0 <= i < |more| && more[i].file == f && more[i].text == t { assert docs[i].file == f && docs[i].text == t; }
    }
  }

  /** Taking a document out, the last one filling its place. */
  lemma Closed(docs: seq<Doc>, at: nat)
    requires at < |docs| && DistinctDocs(docs)
    ensures var left := docs[at := docs[|docs| - 1]][..|docs| - 1];
            && DistinctDocs(left) && !IsOpen(left, docs[at].file)
            && (forall d :: d in left ==> d in docs)
            && forall f: File, t: Text :: HasText(left, f, t) <==> f != docs[at].file && HasText(docs, f, t)
  {
    var n := |docs| - 1;
    var left := docs[at := docs[n]][..n];
    forall i | 0 <= i < n ensures left[i] == docs[if i == at then n else i] {}
    forall f: File, t: Text ensures HasText(left, f, t) <==> f != docs[at].file && HasText(docs, f, t) {
      if i :| 0 <= i < n && left[i].file == f && left[i].text == t {
        var j := if i == at then n else i;
        assert docs[j].file == f && docs[j].text == t;
      }
      if f != docs[at].file && HasText(docs, f, t) {
        var j :| 0 <= j < |docs| && docs[j].file == f && docs[j].text == t;
        var i := if j == n then at else j;
        assert left[i].file == f && left[i].text == t;
      }
    }
  }

  // ----- a session -----

  datatype Message = Opened(file: File, text: Text) | Changed(file: File, newText: Option<Text>) | Closing(file: File) | Idle

  /** The editor's buffers after a message. */
  function Edited(buffers: map<File, Text>, m: Message): map<File, Text> {
    match m
    case Opened(f, text) => buffers[f := text]
    case Changed(f, text) => if f in buffers && text.Some? then buffers[f := text.value] else buffers
    case Closing(f) => buffers - {f}
    case Idle => buffers
  }

  function AllEdited(buffers: map<File, Text>, ms: seq<Message>): map<File, Text> {
    if ms == [] then buffers else Edited(AllEdited(buffers, ms[..|ms| - 1]), ms[|ms| - 1])
  }

  /** The server holds the editor's buffers. */
  ghost predicate Mirrors(docs: seq<Doc>, buffers: map<File, Text>) {
    forall f: File, t: Text :: HasText(docs, f, t) <==> f in buffers && buffers[f] == t
  }

  class Server {
    const setup: Setup
    var docs: seq<Doc>
    var units: seq<UnitEntry>
    var pubUris: seq<File>
    var nextId: nat
    ghost var live: set<nat>       // analyses not freed
    ghost var client: Client       // what the editor shows
    ghost var disk: File -> Option<Text>   // saved files, as of the last publish

    /** Documents and units, whatever is pending. A document that is not dirty keys a
        unit, and every unit's analysis read it if it reads that file at all. */
    ghost predicate Coherent()
      reads this
    {
      && DistinctDocs(docs) && DistinctUnits(units)
      && (forall i :: 0 <= i < |docs| && !docs[i].dirty ==> docs[i].key.Some? && HasUnit(units, docs[i].key.value))
      && (forall u :: 0 <= u < |units| ==> UnitSound(units[u]))
      && (forall u, i :: 0 <= u < |units| && 0 <= i < |docs| && !docs[i].dirty ==> ReadsDoc(setup, units[u], docs[i]))
    }

    /** Every analysis has one owner, and none has been freed too early or leaked. */
    ghost predicate Ownership()
      reads this`units, this`live, this`nextId
    {
      && Apart(units)
      && (forall id: nat :: id in live <==> Owns(units, id))
      && (forall id :: id in live ==> id < nextId)
      && (forall i :: 0 <= i < |units| ==> Retains(units[i]))
    }

    ghost predicate Valid()
      reads this
    {
      && Coherent() && Ownership()
      && (forall i :: 0 <= i < |units| ==> units[i].result.Some?)
      && (forall f: File :: Shown(client, f) != [] ==> f in pubUris)
      && (!AnyDirty(docs) ==> Truthful(setup, docs, units, disk, client))
      && (!AnyDirty(docs) ==> forall i :: 0 <= i < |units| ==> HasKey(docs, units[i].key))
    }

    constructor (setup: Setup)
      ensures this.setup == setup && Valid() && docs == [] && units == [] && live == {}
    {
      this.setup := setup;
      docs, units, pubUris, nextId := [], [], [], 0;
      live, client := {}, map[];
      disk := _ => None;
    }

    // ----- lookups -----

    method FindDoc(f: File) returns (i: nat)
      ensures i <= |docs| && (i < |docs| ==> docs[i].file == f)
      ensures i == |docs| <==> !IsOpen(docs, f)
    {
      i := 0;
      while i < |docs| && docs[i].file != f
        invariant i <= |docs| && forall j :: 0 <= j < i ==> docs[j].file != f
      {
        i := i + 1;
      }
    }

    method FindUnit(k: Key) returns (i: nat)
      ensures i <= |units| && (i < |units| ==> units[i].key == k)
      ensures i == |units| <==> !HasUnit(units, k)
    {
      i := 0;
      while i < |units| && units[i].key != k
        invariant i <= |units| && forall j :: 0 <= j < i ==> units[j].key != k
      {
        i := i + 1;
      }
    }

    /** The first open document that forms this unit. */
    method PrimaryDoc(k: Key) returns (i: nat)
      ensures i <= |docs| && (i < |docs| ==> docs[i].key == Some(k))
      ensures i == |docs| <==> !HasKey(docs, k)
    {
      i := 0;
      while i < |docs| && docs[i].key != Some(k)
        invariant i <= |docs| && forall j :: 0 <= j < i ==> docs[j].key != Some(k)
      {
        i := i + 1;
      }
    }

    /** The analysis that answers queries about a document: never one already freed,
        and always one that type-checked. */
    method QueryResult(d: Doc) returns (r: Option<Analysis>)
      requires Valid()
      ensures r.Some? ==> r.value.typed && r.value.id in live
      ensures d in docs && !d.dirty && r.None? ==>
                exists u :: 0 <= u < |units| && Some(units[u].key) == d.key && units[u].lastGood.None? && units[u].result.Some? && !units[u].result.value.typed
      ensures r.Some? ==> exists u :: 0 <= u < |units| && Some(units[u].key) == d.key &&
                            r == (if units[u].result.Some? && units[u].result.value.typed then units[u].result else units[u].lastGood)
    {
      if d.key.None? {
        return None;
      }
      var u := FindUnit(d.key.value);
      if u == |units| {
        return None;
      }
      assert Retains(units[u]);
      r := if units[u].result.Some? && units[u].result.value.typed then units[u].result else units[u].lastGood;
      if r.Some? {
        assert r.value.id in Owned(units[u]);
        assert Owns(units, r.value.id);
      }
    }

    // ----- one analysis -----

    /** Live text wins over saved text; the feed adds what is not there yet, by path
        or by content. */
    method GatherSources(k: Key, primary: Doc, env: Env) returns (files: seq<File>, texts: map<File, Text>, fed: set<File>)
      requires DistinctDocs(docs) && DistinctFeed(setup) && primary in docs
      ensures Sources(setup, docs, env, k, primary.file, texts, fed)
      ensures forall f :: f in files <==> f in texts
    {
      var i :| 0 <= i < |docs| && docs[i] == primary;
      assert IsOpen(docs, primary.file);
      files, texts, fed := [primary.file], map[primary.file := primary.text], {};
      var listed := env.listed(k, primary.file);
      for j := 0 to |listed|
        invariant forall f :: f in files <==> f in texts
        invariant forall f: File :: f in texts <==> (f == primary.file || f in listed[..j]) && Present(docs, env.disk, f)
        invariant forall f: File :: f in texts ==> Live(docs, env.disk, f, texts[f])
      {
        var f := listed[j];
        if f == primary.file { continue; }
        var d := FindDoc(f);
        if d < |docs| {
          texts := texts[f := docs[d].text];
          files := files + [f];
        } else if env.disk(f).Some? {
          texts := texts[f := env.disk(f).value];
          files := files + [f];
        }
      }
      assert listed[..|listed|] == listed;
      if env.heuristic(k, primary.file) {
        files, texts, fed := JoinFeed(k, primary.file, env, files, texts);
      }
    }

    method JoinFeed(k: Key, primary: File, env: Env, have: seq<File>, haveTexts: map<File, Text>)
      returns (files: seq<File>, texts: map<File, Text>, fed: set<File>)
      requires DistinctDocs(docs) && DistinctFeed(setup) && env.heuristic(k, primary)
      requires forall f :: f in have <==> f in haveTexts
      requires forall f: File :: f in haveTexts <==> Listed(env, k, primary, f) && Present(docs, env.disk, f)
      requires forall f: File :: f in haveTexts ==> Live(docs, env.disk, f, haveTexts[f])
      ensures Sources(setup, docs, env, k, primary, texts, fed)
      ensures forall f :: f in files <==> f in texts
    {
      files, texts, fed := have, haveTexts, {};
      for j := 0 to |setup.feed|
        invariant forall f :: f in files <==> f in texts
        invariant forall f: File :: f in texts <==> f in haveTexts || f in fed
        invariant forall f :: f in texts && f !in fed ==> texts[f] == haveTexts[f]
        invariant forall f :: f in fed ==> f !in haveTexts && FeedHas(setup, f, texts[f])
        invariant forall f :: f in fed ==> exists i :: 0 <= i < j && setup.feed[i].0 == f && NoCopy(docs, env, k, primary, setup.feed[i].1)
        invariant forall i :: 0 <= i < j && setup.feed[i].0 !in haveTexts && NoCopy(docs, env, k, primary, setup.feed[i].1) ==> setup.feed[i].0 in fed
      {
        var (f, text) := setup.feed[j];
        var copied := HasCopy(k, primary, env, have, haveTexts, text);
        if f !in have && !copied {
          assert FeedHas(setup, f, text);
          texts := texts[f := text];
          files := files + [f];
          fed := fed + {f};
        }
      }
    }

    method HasCopy(k: Key, primary: File, env: Env, have: seq<File>, haveTexts: map<File, Text>, text: Text) returns (copied: bool)
      requires DistinctDocs(docs)
      requires forall f :: f in have <==> f in haveTexts
      requires forall f: File :: f in haveTexts <==> Listed(env, k, primary, f) && Present(docs, env.disk, f)
      requires forall f: File :: f in haveTexts ==> Live(docs, env.disk, f, haveTexts[f])
      ensures copied <==> !NoCopy(docs, env, k, primary, text)
    {
      copied := false;
      for h := 0 to |have|
        invariant copied <==> exists g :: 0 <= g < h && haveTexts[have[g]] == text
      {
        copied := copied || haveTexts[have[h]] == text;
      }
      forall g: File, t: Text, o: Text | Live(docs, env.disk, g, t) && Live(docs, env.disk, g, o) ensures t == o {
        LiveIsOne(docs, env.disk, g, t, o);
      }
      if copied {
        var g :| 0 <= g < |have| && haveTexts[have[g]] == text;
        assert Listed(env, k, primary, have[g]) && Live(docs, env.disk, have[g], text);
      } else {
        assert forall g :: g in haveTexts ==> g in have && haveTexts[g] != text;
      }
    }

    /** An analysis is freed only while it is live, so never twice. */
    ghost method Free(id: nat)
      requires id in live
      modifies this`live
      ensures live == old(live) - {id}
    {
      live := live - {id};
    }

    /** Free what the unit no longer needs: the previous analysis, unless it is the
        last good one and the new one did not type-check. */
    method Retire(u: UnitEntry, newest: Analysis) returns (good: Option<Analysis>)
      requires Retains(u) && Owned(u) <= live && newest.id in live && newest.id !in Owned(u)
      modifies this`live
      ensures good == if newest.typed then Some(newest) else u.lastGood
      ensures var after := u.(result := Some(newest), lastGood := good);
              Retains(after) && live == old(live) - Owned(u) + Owned(after) && {newest.id} <= Owned(after) <= Owned(u) + {newest.id}
    {
      var prev := u.result;
      good := u.lastGood;
      if newest.typed {
        if good.Some? && good != prev {
          Free(good.value.id);
        }
        good := Some(newest);
        if prev.Some? {
          Free(prev.value.id);
        }
      } else {
        if prev.Some? && prev != good {
          Free(prev.value.id);
        }
      }
    }

    method Compute(u: UnitEntry, primary: nat, id: nat, env: Env) returns (after: UnitEntry)
      requires DistinctDocs(docs) && DistinctFeed(setup) && primary < |docs|
      ensures after.key == u.key && after.lastGood == u.lastGood && Current(setup, docs, env, after)
      ensures after.result.Some? && after.result.value.id == id && after.result.value.primary == docs[primary].file
    {
      hide Sources;
      var doc := docs[primary];
      var files, texts, fed := GatherSources(u.key, doc, env);
      var (typed, diags) := env.compile(u.key, doc.file, texts);
      after := UnitEntry(u.key, files, env.hidden(u.key, doc.file), Some(Analysis(id, doc.file, env.listed(u.key, doc.file), texts, fed, typed, diags)), u.lastGood);
    }

    /** Re-run one unit. */
    method AnalyzeUnit(at: nat, primary: nat, env: Env)
      requires DistinctDocs(docs) && DistinctFeed(setup) && Ownership()
      requires at < |units| && primary < |docs|
      modifies this`units, this`nextId, this`live
      ensures Ownership() && |units| == |old(units)| && units == old(units)[at := units[at]]
      ensures units[at].key == old(units)[at].key && Current(setup, docs, env, units[at])
      ensures units[at].result.value.primary == docs[primary].file
    {
      hide Current, DistinctDocs, DistinctFeed, Owned, Owns, Retains, Apart;
      var u := units[at];
      var computed := Compute(u, primary, nextId, env);
      var newest := computed.result.value;
      assert Retains(u) && newest.id !in live;
      OwnedLive(at);
      live, nextId := live + {newest.id}, nextId + 1;
      var good := Retire(u, newest);
      var after := computed.(lastGood := good);
      SameOwned(u.(result := Some(newest), lastGood := good), after);
      Replaced(units, at, after, newest.id);
      GoodAside(env, computed, good);
      units := units[at := after];
    }

    lemma OwnedLive(at: nat)
      requires Ownership() && at < |units|
      ensures Owned(units[at]) <= live
    {
      forall id | id in Owned(units[at]) ensures id in live {
        assert Owns(units, id);
      }
    }

    lemma SameOwned(u: UnitEntry, v: UnitEntry)
      requires u.result == v.result && u.lastGood == v.lastGood
      ensures Owned(u) == Owned(v) && Retains(u) == Retains(v)
    {
    }

    lemma GoodAside(env: Env, u: UnitEntry, good: Option<Analysis>)
      requires Current(setup, docs, env, u)
      ensures Current(setup, docs, env, u.(lastGood := good))
    {
    }

    method UnitFindOrCreate(k: Key) returns (at: nat)
      requires Ownership() && DistinctUnits(units)
      modifies this`units
      ensures Ownership() && DistinctUnits(units) && at < |units| && units[at].key == k
      ensures units == old(units) || (units == old(units) + [units[at]] && at == |old(units)| && !HasUnit(old(units), k))
    {
      at := FindUnit(k);
      if at == |units| {
        var u := UnitEntry(k, [], [], None, None);
        Appended(units, u);
        units := units + [u];
      }
    }

    // ----- one flush -----

    /** Which unit a document forms may have changed since the last flush. */
    method RefreshKeys(env: Env)
      modifies this`docs
      ensures SameBuffers(old(docs), docs)
      ensures forall i :: 0 <= i < |docs| ==> docs[i].key == Some(env.keyOf(docs[i].file))
      ensures forall i :: 0 <= i < |docs| ==> docs[i].dirty == (old(docs)[i].dirty || old(docs)[i].key != docs[i].key)
    {
      for i := 0 to |docs|
        invariant SameBuffers(old(docs), docs)
        invariant forall j :: i <= j < |docs| ==> docs[j] == old(docs)[j]
        invariant forall j :: 0 <= j < i ==> docs[j].key == Some(env.keyOf(docs[j].file))
        invariant forall j :: 0 <= j < i ==> docs[j].dirty == (old(docs)[j].dirty || old(docs)[j].key != docs[j].key)
      {
        var k := env.keyOf(docs[i].file);
        var changed := docs[i].key != Some(k);
        docs := docs[i := docs[i].(key := Some(k), dirty := docs[i].dirty || changed)];
      }
    }

    /** Each unit with a changed document, once. */
    method AnalyzeDirty(env: Env) returns (done: seq<Key>)
      requires DistinctDocs(docs) && DistinctFeed(setup) && Ownership() && DistinctUnits(units)
      requires forall i :: 0 <= i < |docs| ==> docs[i].key.Some?
      modifies this`units, this`nextId, this`live
      ensures Ownership() && Progress(setup, docs, env, old(units), units, done)
      ensures forall i :: 0 <= i < |docs| && docs[i].dirty ==> docs[i].key.value in done
      ensures forall k :: k in done ==> HasUnit(units, k) && HasDirtyKey(docs, k)
    {
      hide Current;
      done := [];
      for i := 0 to |docs|
        invariant Ownership() && Progress(setup, docs, env, old(units), units, done)
        invariant forall j :: 0 <= j < i && docs[j].dirty ==> docs[j].key.value in done
        invariant forall k :: k in done ==> HasUnit(units, k) && HasDirtyKey(docs, k)
      {
        if docs[i].dirty && docs[i].key.value !in done {
          done := AnalyzeKey(docs[i].key.value, env, old(units), done);
        }
      }
    }

    method AnalyzeKey(k: Key, env: Env, ghost was: seq<UnitEntry>, done: seq<Key>) returns (more: seq<Key>)
      requires DistinctDocs(docs) && DistinctFeed(setup) && Ownership() && HasKey(docs, k) && k !in done
      requires Progress(setup, docs, env, was, units, done)
      requires forall d :: d in done ==> HasUnit(units, d)
      modifies this`units, this`nextId, this`live
      ensures more == done + [k]
      ensures Ownership() && Progress(setup, docs, env, was, units, more)
      ensures forall d :: d in more ==> HasUnit(units, d)
    {
      hide Current;
      ghost var before := units;
      var at := UnitFindOrCreate(k);
      ghost var found := units;
      var p := PrimaryDoc(k);
      AnalyzeUnit(at, p, env);
      more := done + [k];
      Grown(env, was, before, found, done, at, units[at]);
      KeysKept(before, found, at, units[at]);
    }

    lemma Grown(env: Env, was: seq<UnitEntry>, before: seq<UnitEntry>, found: seq<UnitEntry>, done: seq<Key>, at: nat, u: UnitEntry)
      requires Progress(setup, docs, env, was, before, done) && DistinctUnits(found)
      requires at < |found| && found[at].key == u.key && u.key !in done && Current(setup, docs, env, u)
      requires found == before || (found == before + [found[at]] && at == |before|)
      ensures Progress(setup, docs, env, was, found[at := u], done + [u.key])
    {
      hide Current;
      var after := found[at := u];
      forall i, j | 0 <= i < j < |after| ensures after[i].key != after[j].key {
        assert found[i].key != found[j].key;
      }
      forall i | 0 <= i < |after| && after[i].key in done + [u.key] ensures Current(setup, docs, env, after[i]) {
        if i != at {
          assert found[i].key != found[at].key;
        }
      }
    }

    lemma KeysKept(before: seq<UnitEntry>, found: seq<UnitEntry>, at: nat, u: UnitEntry)
      requires at < |found| && found[at].key == u.key && (found == before || (found == before + [found[at]] && at == |before|))
      ensures forall k :: HasUnit(before, k) || k == u.key ==> HasUnit(found[at := u], k)
    {
      forall k | HasUnit(before, k) || k == u.key ensures HasUnit(found[at := u], k) {
        if k == u.key {
          assert found[at := u][at].key == k;
        } else {
          var i :| 0 <= i < |before| && before[i].key == k;
          assert found[at := u][i].key == k;
        }
      }
    }

    method IsTouched(u: UnitEntry) returns (touched: bool)
      ensures touched == Touched(docs, u)
    {
      touched := false;
      for i := 0 to |docs|
        invariant touched <==> exists j :: 0 <= j < i && docs[j].dirty && docs[j].file in u.files
      {
        touched := touched || (docs[i].dirty && docs[i].file in u.files);
      }
    }

    /** Then every other unit that reads a changed file. */
    method AnalyzeTouched(env: Env, ghost was: seq<UnitEntry>, first: seq<Key>) returns (done: seq<Key>)
      requires DistinctDocs(docs) && DistinctFeed(setup) && Ownership()
      requires Progress(setup, docs, env, was, units, first)
      requires forall i :: 0 <= i < |docs| && docs[i].dirty ==> docs[i].key.Some? && docs[i].key.value in first
      requires forall k :: k in first ==> HasUnit(units, k) && HasDirtyKey(docs, k)
      modifies this`units, this`nextId, this`live
      ensures Ownership() && Progress(setup, docs, env, was, units, done) && Caught(docs, units, done) && Sparing(docs, was, done)
    {
      hide Current, Ownership, Progress, HasUnit, HasKey, Touched, DistinctDocs, DistinctFeed;
      done := first;
      for ui := 0 to |units|
        invariant |units| == |old(units)|
        invariant Ownership() && Progress(setup, docs, env, was, units, done) && Sparing(docs, was, done)
        invariant forall k :: k in first ==> k in done
        invariant forall k :: k in done ==> HasUnit(units, k)
        invariant forall u :: 0 <= u < ui && units[u].key !in done ==> !HasKey(docs, units[u].key) || !Touched(docs, units[u])
      {
        if units[ui].key !in done {
          done := AnalyzeIfTouched(ui, env, was, done);
        }
      }
    }

    method AnalyzeIfTouched(ui: nat, env: Env, ghost was: seq<UnitEntry>, done: seq<Key>) returns (more: seq<Key>)
      requires DistinctDocs(docs) && DistinctFeed(setup) && Ownership() && ui < |units| && units[ui].key !in done
      requires Progress(setup, docs, env, was, units, done) && Sparing(docs, was, done)
      requires forall k :: k in done ==> HasUnit(units, k)
      modifies this`units, this`nextId, this`live
      ensures Ownership() && Progress(setup, docs, env, was, units, more) && Sparing(docs, was, more)
      ensures forall k :: k in more ==> HasUnit(units, k)
      ensures more == done || more == done + [units[ui].key]
      ensures |units| == |old(units)| && units == old(units)[ui := units[ui]] && units[ui].key == old(units)[ui].key
      ensures more == done ==> units == old(units) && (!HasKey(docs, units[ui].key) || !Touched(docs, units[ui]))
    {
      hide Current, Ownership, Progress, Sparing;
      ghost var before := units;
      var k := units[ui].key;
      more := done;
      var touched := IsTouched(units[ui]);
      var p := PrimaryDoc(k);
      if touched && p < |docs| {
        AnalyzeUnit(ui, p, env);
        OneMore(setup, docs, env, was, before, done, ui, units[ui]);
        KeysKept(before, before, ui, units[ui]);
        StillWas(env, was, before, done, ui);
        SparingMore(docs, was, done, before[ui]);
        more := done + [k];
      }
    }

    lemma StillWas(env: Env, was: seq<UnitEntry>, before: seq<UnitEntry>, done: seq<Key>, ui: nat)
      requires Progress(setup, docs, env, was, before, done) && ui < |before| && before[ui].key !in done
      ensures forall i :: 0 <= i < |was| && was[i].key == before[ui].key ==> was[i] == before[ui]
    {
    }

    /** Free what a unit owns: two analyses, or one that serves as both. */
    ghost method FreeUnit(u: UnitEntry)
      requires Owned(u) <= live && Retains(u)
      modifies this`live
      ensures live == old(live) - Owned(u)
    {
      if u.lastGood.Some? && u.lastGood != u.result {
        Free(u.lastGood.value.id);
      }
      if u.result.Some? {
        Free(u.result.value.id);
      }
    }

    /** Drop the units no open document forms. */
    method UnitPrune()
      requires Ownership() && DistinctUnits(units)
      modifies this`units, this`live
      ensures Ownership() && DistinctUnits(units) && (units != [] ==> docs != [])
      ensures forall u :: u in units <==> u in old(units) && HasKey(docs, u.key)
    {
      var i := 0;
      while i < |units|
        invariant i <= |units| && Ownership() && DistinctUnits(units)
        invariant forall j :: 0 <= j < i ==> HasKey(docs, units[j].key)
        invariant forall u :: u in units ==> u in old(units)
        invariant forall u :: u in old(units) && HasKey(docs, u.key) ==> u in units
        decreases |units| - i
      {
        var p := PrimaryDoc(units[i].key);
        if p < |docs| {
          i := i + 1;
        } else {
          DropUnit(i);
        }
      }
      Anchored(docs, units);
    }

    method DropUnit(at: nat)
      requires Ownership() && DistinctUnits(units) && at < |units|
      modifies this`units, this`live
      ensures Ownership() && DistinctUnits(units) && units == old(units)[at := old(units)[|old(units)| - 1]][..|old(units)| - 1]
      ensures forall u :: u in units <==> u in old(units) && u.key != old(units)[at].key
    {
      hide Owned, Owns, Retains, Apart, DistinctUnits;
      var u, n := units[at], |units| - 1;
      OwnedLive(at);
      FreeUnit(u);
      Dropped(units, at);
      ghost var was := units;
      units := units[at := units[n]][..n];
      WhoRemains(was, at);
    }

    // ----- publishing -----

    ghost method Emit(f: File, diags: seq<Diag>)
      modifies this`client
      ensures client == old(client)[f := diags]
    {
      client := client[f := diags];
    }

    method Reports(u: UnitEntry, d: Diag) returns (yes: bool)
      ensures yes == Reported(setup, docs, u, d)
    {
      if d.file in u.hidden {
        return false;
      }
      var at := FindDoc(d.file);
      if at < |docs| {
        return true;
      }
      yes := true;
      for k := 0 to |setup.feed|
        invariant yes <==> forall j :: 0 <= j < k ==> setup.feed[j].0 != d.file
      {
        yes := yes && setup.feed[k].0 != d.file;
      }
    }

    /** Every unit's diagnostics, each once. */
    method Collect() returns (agg: seq<Diag>)
      ensures agg == Aggregate(setup, docs, units, [])
    {
      agg := [];
      for ui := 0 to |units|
        invariant Aggregate(setup, docs, units[ui..], agg) == Aggregate(setup, docs, units, [])
      {
        var diags := DiagsOf(units[ui]);
        ghost var start := agg;
        for i := 0 to |diags|
          invariant AddAll(setup, docs, units[ui], diags[i..], agg) == AddAll(setup, docs, units[ui], diags, start)
        {
          var yes := Reports(units[ui], diags[i]);
          assert diags[i..][1..] == diags[i + 1..];
          if yes && diags[i] !in agg {
            agg := agg + [diags[i]];
          }
        }
        assert units[ui..][1..] == units[ui + 1..];
      }
    }

    lemma AllShown(agg: seq<Diag>, disk: File -> Option<Text>, now: seq<File>, start: Client, told: Client, end: Client)
      requires forall f: File :: Shown(start, f) != [] ==> f in pubUris
      requires forall f: File :: f in now <==> (exists d :: d in agg && d.file == f) && Present(docs, disk, f)
      requires forall f: File :: Shown(told, f) == if f in now then OfFile(agg, f) else Shown(start, f)
      requires forall f: File :: Shown(end, f) == if f !in now && (IsOpen(docs, f) || f in pubUris) then [] else Shown(told, f)
      ensures forall f: File :: Shown(end, f) == Expected(docs, disk, agg, f)
      ensures forall f: File :: Shown(end, f) != [] ==> f in now
    {
      forall f: File ensures Shown(end, f) == Expected(docs, disk, agg, f) && (Shown(end, f) != [] ==> f in now) {
        OfFileMembers(agg, f);
      }
    }

    /** One notification for each file with diagnostics, one empty for each open
        document without, and one empty for each file that had some last time and has
        none now. */
    method Publish(env: Env)
      requires forall f: File :: Shown(client, f) != [] ==> f in pubUris
      modifies this`client, this`pubUris, this`disk
      ensures disk == env.disk && Truthful(setup, docs, units, disk, client)
      ensures forall f: File :: Shown(client, f) != [] ==> f in pubUris
    {
      hide Shown, Expected, Aggregate;
      var agg := Collect();
      var now := EmitErrors(agg, env);
      ghost var told := client;
      ClearOpen(now);
      ClearStale(now);
      AllShown(agg, env.disk, now, old(client), told, client);
      pubUris := now;
      disk := env.disk;
    }

    method ClearOpen(now: seq<File>)
      modifies this`client
      ensures forall f: File :: Shown(client, f) == if f !in now && IsOpen(docs, f) then [] else Shown(old(client), f)
    {
      for d := 0 to |docs|
        invariant forall f: File :: Shown(client, f) == if f !in now && IsOpen(docs[..d], f) then [] else Shown(old(client), f)
      {
        OpenStep(docs, d);
        if docs[d].file !in now {
          Emit(docs[d].file, []);
        }
      }
      assert docs[..|docs|] == docs;
    }

    method ClearStale(now: seq<File>)
      modifies this`client
      ensures forall f: File :: Shown(client, f) == if f !in now && f in pubUris && !IsOpen(docs, f) then [] else Shown(old(client), f)
    {
      var uris := pubUris;
      for p := 0 to |uris|
        invariant forall f: File :: Shown(client, f) == if f !in now && f in uris[..p] && !IsOpen(docs, f) then [] else Shown(old(client), f)
      {
        assert uris[..p + 1] == uris[..p] + [uris[p]];
        if uris[p] !in now {
          var at := FindDoc(uris[p]);
          if at == |docs| {
            Emit(uris[p], []);
          }
        }
      }
      assert uris[..|uris|] == uris;
    }

    method EmitErrors(agg: seq<Diag>, env: Env) returns (now: seq<File>)
      modifies this`client
      ensures forall f: File :: f in now <==> Met(agg, f) && Present(docs, env.disk, f)
      ensures forall f: File :: Shown(client, f) == if f in now then OfFile(agg, f) else Shown(old(client), f)
    {
      hide OfFile;
      now := [];
      for i := 0 to |agg|
        invariant forall f: File :: f in now <==> Met(agg[..i], f) && Present(docs, env.disk, f)
        invariant forall f: File :: Shown(client, f) == if f in now then OfFile(agg, f) else Shown(old(client), f)
      {
        hide OfFile, Met;
        var f := agg[i].file;
        var seen := SeenBefore(agg, i);
        MetStep(agg, i);
        NotMet(agg, i);
        if !seen {
          var diags := FileDiags(agg, i);
          var at := FindDoc(f);
          if at < |docs| || env.disk(f).Some? {
            Emit(f, diags);
            now := now + [f];
          }
        }
      }
      assert agg[..|agg|] == agg;
    }

    method SeenBefore(agg: seq<Diag>, i: nat) returns (seen: bool)
      requires i < |agg|
      ensures seen <==> Met(agg[..i], agg[i].file)
    {
      seen := false;
      for j := 0 to i
        invariant seen <==> Met(agg[..j], agg[i].file)
      {
        hide Met;
        MetStep(agg, j);
        seen := seen || agg[j].file == agg[i].file;
      }
    }

    /** The diagnostics of the file first met at `i`. */
    method FileDiags(agg: seq<Diag>, i: nat) returns (diags: seq<Diag>)
      requires i < |agg| && forall d :: d in agg[..i] ==> d.file != agg[i].file
      ensures diags == OfFile(agg, agg[i].file)
    {
      var f := agg[i].file;
      diags := [];
      OfFileMembers(agg[..i], f);
      for j := i to |agg|
        invariant diags == OfFile(agg[..j], f)
      {
        assert agg[..j + 1] == agg[..j] + [agg[j]];
        OfFileOneMore(agg[..j], agg[j], f);
        if agg[j].file == f {
          diags := diags + [agg[j]];
        }
      }
      assert agg[..|agg|] == agg;
    }

    // ----- messages -----

    method HasDirty() returns (any: bool)
      ensures any == AnyDirty(docs)
    {
      any := false;
      for i := 0 to |docs|
        invariant any <==> exists j :: 0 <= j < i && docs[j].dirty
      {
        any := any || docs[i].dirty;
      }
    }

    method SetDirty(dirty: bool)
      modifies this`docs
      ensures SameBuffers(old(docs), docs)
      ensures forall i :: 0 <= i < |docs| ==> docs[i].dirty == dirty && docs[i].key == old(docs)[i].key
    {
      for i := 0 to |docs|
        invariant SameBuffers(old(docs), docs)
        invariant forall j :: 0 <= j < |docs| ==> docs[j].key == old(docs)[j].key
        invariant forall j :: 0 <= j < i ==> docs[j].dirty == dirty
      {
        docs := docs[i := docs[i].(dirty := dirty)];
      }
    }

    /** Realize every pending edit: units with a changed document or a changed member
        are analyzed again, units with no document go, and the client is told. */
    method FlushDirty(env: Env)
      requires Valid() && DistinctFeed(setup)
      modifies this
      ensures Valid() && !AnyDirty(docs) && SameBuffers(old(docs), docs)
      ensures !AnyDirty(old(docs)) ==> docs == old(docs) && units == old(units) && client == old(client)
      ensures forall i :: 0 <= i < |docs| ==> docs[i].key.Some? && HasUnit(units, docs[i].key.value)
      ensures forall u :: 0 <= u < |units| ==> HasKey(docs, units[u].key)
      ensures AnyDirty(old(docs)) ==> disk == env.disk && forall u :: u in units ==> u in old(units) || Current(setup, docs, env, u)
      ensures forall u, i :: u in units && 0 <= i < |docs| && old(docs)[i].dirty && docs[i].key == Some(u.key) ==> Current(setup, docs, env, u)
      ensures forall u :: u in old(units) && HasKey(docs, u.key) && !Concerned(old(docs), docs, u) ==> u in units
      ensures AnyDirty(old(docs)) ==> forall i :: 0 <= i < |docs| ==> docs[i].key == Some(env.keyOf(docs[i].file))
    {
      hide Current, Truthful, Ownership, ReadsDoc, UnitSound, Concerned;
      var any := HasDirty();
      if any {
        Reanalyze(env);
        Publish(env);
      }
    }

    /** All of a flush but the publishing. */
    method Reanalyze(env: Env)
      requires Coherent() && Ownership() && DistinctFeed(setup)
      requires forall i :: 0 <= i < |units| ==> units[i].result.Some?
      modifies this`docs, this`units, this`nextId, this`live
      ensures Coherent() && Ownership() && !AnyDirty(docs) && SameBuffers(old(docs), docs)
      ensures forall u :: 0 <= u < |units| ==> units[u].result.Some? && HasKey(docs, units[u].key)
      ensures forall u :: u in units ==> u in old(units) || Current(setup, docs, env, u)
      ensures forall u, i :: u in units && 0 <= i < |docs| && old(docs)[i].dirty && docs[i].key == Some(u.key) ==> Current(setup, docs, env, u)
      ensures forall u :: u in old(units) && HasKey(docs, u.key) && !Concerned(old(docs), docs, u) ==> u in units
      ensures forall i :: 0 <= i < |docs| ==> docs[i].key == Some(env.keyOf(docs[i].file))
    {
      hide Current, Progress, Caught, Sparing, ReadsDoc, UnitSound, Ownership, Concerned;
      ghost var before, was := docs, units;
      RefreshKeys(env);
      ghost var refreshed := docs;
      var first := AnalyzeDirty(env);
      var done := AnalyzeTouched(env, was, first);
      ghost var analyzed := units;
      SetDirty(false);
      Distinct(env, was, analyzed, done, refreshed);
      UnitPrune();
      Settled(setup, env, was, before, refreshed, docs, analyzed, units, done);
      assert forall u :: 0 <= u < |units| ==> units[u] in units;
    }

    lemma Distinct(env: Env, was: seq<UnitEntry>, units: seq<UnitEntry>, done: seq<Key>, docs: seq<Doc>)
      requires Progress(setup, docs, env, was, units, done)
      ensures DistinctUnits(units)
    {
    }

    method DidOpen(f: File, text: Text)
      requires Valid()
      modifies this`docs
      ensures Valid() && IsOpen(docs, f) && forall i :: 0 <= i < |docs| && docs[i].file == f ==> docs[i].text == text && docs[i].dirty
      ensures forall d: Doc :: d.file != f ==> (d in docs <==> d in old(docs))
      ensures !IsOpen(old(docs), f) ==> docs == old(docs) + [Doc(f, text, true, None)]
    {
      var at := FindDoc(f);
      if at == |docs| {
        docs := docs + [Doc(f, text, true, None)];
      } else {
        docs := docs[at := docs[at].(text := text, dirty := true)];
      }
      assert docs[at].dirty;
      assert forall i :: 0 <= i < |docs| && i != at ==> docs[i] == old(docs)[i];
      assert forall i :: 0 <= i < |old(docs)| && i != at ==> docs[i] == old(docs)[i];
    }

    /** A message that carries no text is ignored, as is one for a file not open. */
    method DidChange(f: File, text: Option<Text>)
      requires Valid()
      modifies this`docs
      ensures Valid() && |docs| == |old(docs)| && forall i :: 0 <= i < |docs| ==>
                docs[i] == if old(docs)[i].file == f && text.Some? then old(docs)[i].(text := text.value, dirty := true) else old(docs)[i]
    {
      var at := FindDoc(f);
      if at == |docs| || text.None? {
        return;
      }
      docs := docs[at := docs[at].(text := text.value, dirty := true)];
      assert docs[at].dirty;
    }

    /** Analyze everything anew: all documents are dirty. */
    method CloseFlush(env: Env)
      requires DistinctDocs(docs) && DistinctUnits(units) && Ownership() && DistinctFeed(setup)
      requires docs != [] && forall i :: 0 <= i < |docs| ==> docs[i].dirty
      requires forall i :: 0 <= i < |units| ==> units[i].result.Some? && UnitSound(units[i])
      requires forall f: File :: Shown(client, f) != [] ==> f in pubUris
      modifies this
      ensures Valid() && !AnyDirty(docs) && SameBuffers(old(docs), docs)
      ensures forall u :: u in units ==> Current(setup, docs, env, u)
    {
      hide Current, Truthful, ReadsDoc, UnitSound, Apart, Retains, Owns, Expected, Aggregate;
      assert docs[0].dirty;
      FlushDirty(env);
      forall u | u in units ensures Current(setup, docs, env, u) {
        var at :| 0 <= at < |units| && units[at] == u;
        assert HasKey(docs, units[at].key);
        var i :| 0 <= i < |docs| && docs[i].key == Some(u.key);
      }
    }

    /** Nothing is open: every unit has gone, so every file published is cleared. */
    method CloseLast(f: File)
      requires docs == [] && units == [] && Ownership()
      requires forall f: File :: Shown(client, f) != [] ==> f in pubUris
      modifies this`client, this`pubUris
      ensures Valid() && live == {} && forall g: File :: Shown(client, g) == []
    {
      var uris := pubUris;
      for p := 0 to |uris|
        invariant forall g: File :: Shown(client, g) == if g in uris[..p] then [] else Shown(old(client), g)
      {
        assert uris[..p + 1] == uris[..p] + [uris[p]];
        Emit(uris[p], []);
      }
      assert uris[..|uris|] == uris;
      pubUris := [];
      Emit(f, []);
      assert live == {} by {
        assert forall id: nat :: !Owns(units, id);
      }
      assert Aggregate(setup, docs, units, []) == [];
    }

    /** Closing makes the saved copy count again: everything still open is analyzed
        anew. Closing the last document frees every analysis and clears the client. */
    method DidClose(f: File, env: Env)
      requires Valid() && DistinctFeed(setup)
      modifies this
      ensures Valid() && !IsOpen(docs, f)
      ensures !IsOpen(old(docs), f) ==> docs == old(docs)
      ensures forall g: File, t: Text :: HasText(docs, g, t) <==> g != f && HasText(old(docs), g, t)
      ensures IsOpen(old(docs), f) ==> !AnyDirty(docs) && forall u :: u in units ==> Current(setup, docs, env, u)
      ensures docs == [] && IsOpen(old(docs), f) ==> live == {} && forall g: File :: Shown(client, g) == []
    {
      hide Current, Truthful, ReadsDoc, UnitSound, Apart, Retains, Owns, Aggregate, Expected;
      var at := FindDoc(f);
      if at == |docs| {
        assert forall g: File, t: Text :: HasText(docs, g, t) ==> IsOpen(docs, g);
        return;
      }
      ghost var was := docs;
      docs := docs[at := docs[|docs| - 1]][..|docs| - 1];
      Closed(was, at);
      ghost var left := docs;
      if |docs| > 0 {
        SetDirty(true);
        CloseFlush(env);
        SameTexts(left, docs);
      } else {
        UnitPrune();
        CloseLast(f);
      }
    }

    method Handle(m: Message, env: Env, ghost buffers: map<File, Text>)
      requires Valid() && DistinctFeed(setup) && Mirrors(docs, buffers)
      modifies this
      ensures Valid() && Mirrors(docs, Edited(buffers, m))
      ensures m.Idle? ==> !AnyDirty(docs)
    {
      hide Valid, AnyDirty, Current;
      ghost var was := docs;
      match m {
        case Opened(f, text) =>
          DidOpen(f, text);
          OpenedText(was, docs, f, text);
        case Changed(f, text) =>
          DidChange(f, text);
          if text.Some? {
            ChangedText(was, docs, f, text.value, buffers);
          } else {
            assert docs == was;
          }
        case Closing(f) =>
          DidClose(f, env);
        case Idle =>
          FlushDirty(env);
          SameTexts(was, docs);
      }
    }
  }

  lemma OpenedText(docs: seq<Doc>, more: seq<Doc>, f: File, text: Text)
    requires IsOpen(more, f) && forall i :: 0 <= i < |more| && more[i].file == f ==> more[i].text == text
    requires forall d: Doc :: d.file != f ==> (d in more <==> d in docs)
    ensures forall g: File, t: Text :: HasText(more, g, t) <==> if g == f then t == text else HasText(docs, g, t)
  {
    forall g: File, t: Text ensures HasText(more, g, t) <==> if g == f then t == text else HasText(docs, g, t) {
      if g != f {
        if i :| 0 <= i < |more| && more[i].file == g && more[i].text == t {
          assert more[i] in docs;
        }
        if i :| 0 <= i < |docs| && docs[i].file == g && docs[i].text == t {
          assert docs[i] in more;
        }
      } else {
        var i :| 0 <= i < |more| && more[i].file == f;
        assert more[i].text == text;
      }
    }
  }

  lemma ChangedText(docs: seq<Doc>, more: seq<Doc>, f: File, text: Text, buffers: map<File, Text>)
    requires Mirrors(docs, buffers) && |more| == |docs|
    requires forall i :: 0 <= i < |docs| ==> more[i] == if docs[i].file == f then docs[i].(text := text, dirty := true) else docs[i]
    ensures Mirrors(more, Edited(buffers, Changed(f, Some(text))))
  {
    forall g: File, t: Text ensures HasText(more, g, t) <==> if g == f then f in buffers && t == text else HasText(docs, g, t) {
      if i :| 0 <= i < |more| && more[i].file == g && more[i].text == t {
        assert HasText(docs, g, docs[i].text);
      }
      if HasText(docs, g, t) {
        var i :| 0 <= i < |docs| && docs[i].file == g && docs[i].text == t;
        assert more[i].file == g;
      }
      if f in buffers {
        assert HasText(docs, f, buffers[f]);
        var i :| 0 <= i < |docs| && docs[i].file == f && docs[i].text == buffers[f];
        assert more[i].text == text;
      }
    }
  }

  /** Whatever messages come, and whatever the file system and the compiler do between
      them: once the queue is empty, every analysis the server holds is of the text of
      exactly those open documents that it wanted and has on record (or whose text the
      feed has too), none has leaked, and the editor shows exactly the diagnostics of
      those analyses. */
  method Serve(setup: Setup, ms: seq<Message>, envs: seq<Env>, last: Env) returns (s: Server)
    requires DistinctFeed(setup) && |envs| == |ms|
    ensures s.Valid() && Mirrors(s.docs, AllEdited(map[], ms))
    ensures forall u, i :: 0 <= u < |s.units| && 0 <= i < |s.docs| ==>
              s.units[u].result.Some? && (ReadsLive(s.units[u], s.docs[i]) <==> OnRecord(setup, s.units[u], s.docs[i]))
    ensures forall id: nat :: id in s.live <==> Owns(s.units, id)
    ensures Truthful(setup, s.docs, s.units, s.disk, s.client)
    ensures AllEdited(map[], ms) == map[] ==> s.live == {} && forall f: File :: Shown(s.client, f) == []
  {
    s := new Server(setup);
    for i := 0 to |ms|
      invariant s.setup == setup && s.Valid() && fresh(s)
      invariant Mirrors(s.docs, AllEdited(map[], ms[..i]))
    {
      assert ms[..i + 1][..i] == ms[..i];
      s.Handle(ms[i], envs[i], AllEdited(map[], ms[..i]));
    }
    assert ms[..|ms|] == ms;
    s.Handle(Idle, last, AllEdited(map[], ms));
    Quiet(s, AllEdited(map[], ms));
  }

  lemma Quiet(s: Server, buffers: map<File, Text>)
    requires s.Valid() && DistinctFeed(s.setup) && !AnyDirty(s.docs) && Mirrors(s.docs, buffers)
    ensures forall u, i :: 0 <= u < |s.units| && 0 <= i < |s.docs| ==>
              s.units[u].result.Some? && (ReadsLive(s.units[u], s.docs[i]) <==> OnRecord(s.setup, s.units[u], s.docs[i]))
    ensures Truthful(s.setup, s.docs, s.units, s.disk, s.client)
    ensures buffers == map[] ==> s.live == {} && forall f: File :: Shown(s.client, f) == []
  {
    forall u, i | 0 <= u < |s.units| && 0 <= i < |s.docs|
      ensures s.units[u].result.Some? && (ReadsLive(s.units[u], s.docs[i]) <==> OnRecord(s.setup, s.units[u], s.docs[i]))
    {
      ReadExactly(s.setup, s.units[u], s.docs[i]);
    }
    if buffers == map[] {
      assert s.docs == [] by {
        if s.docs != [] {
          assert HasText(s.docs, s.docs[0].file, s.docs[0].text);
        }
      }
      Anchored(s.docs, s.units);
      assert forall id: nat :: !Owns(s.units, id);
      assert Aggregate(s.setup, s.docs, s.units, []) == [];
    }
  }
}
