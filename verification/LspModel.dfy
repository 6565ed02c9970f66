/** The language server's state: documents, compilation units, analyses, and what
    the client shows. A file is its canonical path, and the client knows it by one
    URI. */
module LspModel {

  datatype Option<T> = None | Some(value: T)

  type File = nat
  type Key = nat
  type Text = seq<int>

  datatype Diag = Diag(file: File, line: nat, col: nat, msg: nat)

  /** An open document. `key` is the unit it forms; `dirty` when it has changed
      since it was last analyzed. */
  datatype Doc = Doc(file: File, text: Text, dirty: bool, key: Option<Key>)

  /** One run of the compiler: what it was to read, what it read, and what it said.
      `listing` are the files the unit listed, of which only those were read that were
      open or on disk; `fed` are the files whose text came from the standard-library
      feed. */
  datatype Analysis = Analysis(
    id: nat, primary: File, listing: seq<File>, texts: map<File, Text>, fed: set<File>, typed: bool, diags: seq<Diag>)

  /** `files`: what the last analysis merged. `hidden`: files it does not report on. */
  datatype UnitEntry = UnitEntry(key: Key, files: seq<File>, hidden: seq<File>, result: Option<Analysis>, lastGood: Option<Analysis>)

  /** The world outside, which may differ at every flush: the unit a document forms,
      the files a unit lists beside its primary document, whether the feed joins it,
      the files it keeps quiet about, the saved files, and what the compiler says
      with the unit's settings. */
  datatype Env = Env(
    keyOf: File -> Key,
    listed: (Key, File) -> seq<File>,
    heuristic: (Key, File) -> bool,
    hidden: (Key, File) -> seq<File>,
    disk: File -> Option<Text>,
    compile: (Key, File, map<File, Text>) -> (bool, seq<Diag>))

  /** What stays the same all session: the standard-library feed, one entry a file. */
  datatype Setup = Setup(feed: seq<(File, Text)>)

  predicate DistinctFeed(setup: Setup) {
    forall i, j :: 0 <= i < j < |setup.feed| ==> setup.feed[i].0 != setup.feed[j].0
  }

  // ----- documents -----

  predicate DistinctDocs(docs: seq<Doc>) {
    forall i, j :: 0 <= i < j < |docs| ==> docs[i].file != docs[j].file
  }

  predicate IsOpen(docs: seq<Doc>, f: File) {
    exists i :: 0 <= i < |docs| && docs[i].file == f
  }

  predicate AnyDirty(docs: seq<Doc>) {
    exists i :: 0 <= i < |docs| && docs[i].dirty
  }

  predicate HasKey(docs: seq<Doc>, k: Key) {
    exists i :: 0 <= i < |docs| && docs[i].key == Some(k)
  }

  // ----- units -----

  predicate DistinctUnits(units: seq<UnitEntry>) {
    forall i, j :: 0 <= i < j < |units| ==> units[i].key != units[j].key
  }

  predicate HasUnit(units: seq<UnitEntry>, k: Key) {
    exists i :: 0 <= i < |units| && units[i].key == k
  }

  predicate FeedHas(setup: Setup, f: File, text: Text) {
    exists i :: 0 <= i < |setup.feed| && setup.feed[i] == (f, text)
  }

  /** The files an analysis reads for their own sake, if they are there. */
  predicate Wanted(r: Analysis, f: File) {
    f == r.primary || f in r.listing
  }

  ghost predicate UnitSound(u: UnitEntry) {
    u.result.Some? ==>
      && (forall f :: f in u.files <==> f in u.result.value.texts)
      && (forall f :: f in u.result.value.fed ==> f in u.result.value.texts)
  }

  /** How the unit's analysis stands to this document: a file it wanted was read with
      the document's text, unless the unit is not the document's own and found nothing
      to read; a file from the feed was read with the feed's text; others were not
      read. */
  predicate ReadsDoc(setup: Setup, u: UnitEntry, d: Doc) {
    u.result.Some? ==>
      var r := u.result.value;
      && (d.file in r.texts && d.file !in r.fed ==> r.texts[d.file] == d.text && Wanted(r, d.file))
      && (d.file in r.fed ==> d.file in r.texts && FeedHas(setup, d.file, r.texts[d.file]))
      && (d.key == Some(u.key) && Wanted(r, d.file) ==> d.file in r.texts && d.file !in r.fed)
  }

  /** The unit's analysis is of what the editor holds for this document. */
  predicate ReadsLive(u: UnitEntry, d: Doc) {
    u.result.Some? && d.file in u.result.value.texts && u.result.value.texts[d.file] == d.text
  }

  /** The unit's last analysis wanted the file and, if the unit is not the document's
      own, has it on record; or it took the file from the feed, and the feed's text
      happens to be the document's. */
  predicate OnRecord(setup: Setup, u: UnitEntry, d: Doc)
    requires u.result.Some?
  {
    var r := u.result.value;
    if d.file in r.fed then FeedHas(setup, d.file, d.text)
    else Wanted(r, d.file) && (d.key == Some(u.key) || d.file in u.files)
  }

  lemma ReadExactly(setup: Setup, u: UnitEntry, d: Doc)
    requires DistinctFeed(setup) && UnitSound(u) && ReadsDoc(setup, u, d) && u.result.Some?
    ensures ReadsLive(u, d) <==> OnRecord(setup, u, d)
  {
    var r := u.result.value;
    if d.file in r.fed && FeedHas(setup, d.file, d.text) {
      var i :| 0 <= i < |setup.feed| && setup.feed[i] == (d.file, d.text);
      var j :| 0 <= j < |setup.feed| && setup.feed[j] == (d.file, r.texts[d.file]);
      assert i == j;
    }
  }

  /** The analyses a unit owns. */
  function Owned(u: UnitEntry): set<nat> {
    (if u.result.Some? then {u.result.value.id} else {}) + (if u.lastGood.Some? then {u.lastGood.value.id} else {})
  }

  /** A good fresh result is also the last good one; an older good one stays while
      the fresh one is not. */
  predicate Retains(u: UnitEntry) {
    && (u.lastGood.Some? ==> u.lastGood.value.typed)
    && (u.result.Some? && u.result.value.typed ==> u.lastGood == u.result)
    && (u.result.Some? && u.lastGood.Some? && u.result.value.id == u.lastGood.value.id ==> u.result == u.lastGood)
  }

  predicate Owns(units: seq<UnitEntry>, id: nat) {
    exists i :: 0 <= i < |units| && id in Owned(units[i])
  }

  /** No analysis has two owners. */
  predicate Apart(units: seq<UnitEntry>) {
    forall i, j :: 0 <= i < j < |units| ==> Owned(units[i]) !! Owned(units[j])
  }

  // ----- the sources of an analysis -----

  predicate Listed(env: Env, k: Key, primary: File, f: File) {
    f == primary || f in env.listed(k, primary)
  }

  /** An open document's buffer, else the saved file. */
  ghost predicate Live(docs: seq<Doc>, disk: File -> Option<Text>, f: File, text: Text) {
    if IsOpen(docs, f) then exists i :: 0 <= i < |docs| && docs[i].file == f && docs[i].text == text
    else disk(f) == Some(text)
  }

  lemma LiveIsOne(docs: seq<Doc>, disk: File -> Option<Text>, f: File, a: Text, b: Text)
    requires DistinctDocs(docs) && Live(docs, disk, f, a) && Live(docs, disk, f, b)
    ensures a == b
  {
    if IsOpen(docs, f) {
      var i :| 0 <= i < |docs| && docs[i].file == f && docs[i].text == a;
      var j :| 0 <= j < |docs| && docs[j].file == f && docs[j].text == b;
      assert i == j;
    }
  }

  ghost predicate Present(docs: seq<Doc>, disk: File -> Option<Text>, f: File) {
    IsOpen(docs, f) || disk(f).Some?
  }

  /** The feed supplies `f`: the unit takes the feed, does not already have the file,
      and has no copy of its text under another path. */
  ghost predicate Feeds(setup: Setup, docs: seq<Doc>, env: Env, k: Key, primary: File, f: File) {
    && env.heuristic(k, primary)
    && !(Listed(env, k, primary, f) && Present(docs, env.disk, f))
    && exists j :: 0 <= j < |setup.feed| && setup.feed[j].0 == f && NoCopy(docs, env, k, primary, setup.feed[j].1)
  }

  ghost predicate NoCopy(docs: seq<Doc>, env: Env, k: Key, primary: File, text: Text) {
    forall g: File :: Listed(env, k, primary, g) ==> !Live(docs, env.disk, g, text)
  }

  /** Exactly the files the unit lists that exist, each with its live text, and the
      feed's files it lacks, each with the feed's text. */
  ghost predicate Sources(setup: Setup, docs: seq<Doc>, env: Env, k: Key, primary: File, texts: map<File, Text>, fed: set<File>) {
    && (forall f: File :: f in texts <==> (Listed(env, k, primary, f) && Present(docs, env.disk, f)) || f in fed)
    && (forall f: File :: f in texts && f !in fed ==> Live(docs, env.disk, f, texts[f]))
    && (forall f: File :: f in fed <==> Feeds(setup, docs, env, k, primary, f))
    && (forall f: File :: f in fed ==> f in texts && FeedHas(setup, f, texts[f]))
  }

  /** The unit's analysis is what the compiler says of its sources as they are now. */
  ghost predicate Current(setup: Setup, docs: seq<Doc>, env: Env, u: UnitEntry) {
    && u.result.Some?
    && var r := u.result.value;
    && Sources(setup, docs, env, u.key, r.primary, r.texts, r.fed)
    && r.listing == env.listed(u.key, r.primary)
    && (forall f :: f in u.files <==> f in r.texts)
    && (r.typed, r.diags) == env.compile(u.key, r.primary, r.texts)
    && u.hidden == env.hidden(u.key, r.primary)
  }

  /** The same buffers, whatever else is noted about them. */
  ghost predicate SameBuffers(docs: seq<Doc>, more: seq<Doc>) {
    |docs| == |more| && forall i :: 0 <= i < |docs| ==> docs[i].file == more[i].file && docs[i].text == more[i].text
  }

  lemma CurrentSame(setup: Setup, docs: seq<Doc>, more: seq<Doc>, env: Env, u: UnitEntry)
    requires SameBuffers(docs, more) && Current(setup, docs, env, u)
    ensures Current(setup, more, env, u)
  {
    var r := u.result.value;
    forall f: File ensures IsOpen(docs, f) == IsOpen(more, f) {
      if i :| 0 <= i < |docs| && docs[i].file == f { assert more[i].file == f; }
      if i :| 0 <= i < |more| && more[i].file == f { assert docs[i].file == f; }
    }
    forall f: File, t: Text ensures Live(docs, env.disk, f, t) == Live(more, env.disk, f, t) {
      if i :| 0 <= i < |docs| && docs[i].file == f && docs[i].text == t { assert more[i].file == f && more[i].text == t; }
      if i :| 0 <= i < |more| && more[i].file == f && more[i].text == t { assert docs[i].file == f && docs[i].text == t; }
    }
    forall t: Text ensures NoCopy(docs, env, u.key, r.primary, t) == NoCopy(more, env, u.key, r.primary, t) {}
    forall f: File ensures Feeds(setup, docs, env, u.key, r.primary, f) == Feeds(setup, more, env, u.key, r.primary, f) {}
    assert Sources(setup, more, env, u.key, r.primary, r.texts, r.fed);
  }

  lemma CurrentReads(setup: Setup, docs: seq<Doc>, env: Env, u: UnitEntry, d: Doc)
    requires DistinctDocs(docs) && d in docs && Current(setup, docs, env, u)
    ensures ReadsDoc(setup, u, d) && UnitSound(u)
  {
    var r := u.result.value;
    var i :| 0 <= i < |docs| && docs[i] == d;
    assert IsOpen(docs, d.file);
    assert Present(docs, env.disk, d.file);
    if d.file in u.files && d.file !in r.fed {
      assert Live(docs, env.disk, d.file, r.texts[d.file]);
      var j :| 0 <= j < |docs| && docs[j].file == d.file && docs[j].text == r.texts[d.file];
      assert i == j;
    }
  }

  /** A fresh analysis misses the live text of an open document exactly when the unit
      does not list its file, whether the document forms the unit or not, and the feed
      does not happen to supply the same text. */
  lemma MissedExactly(setup: Setup, docs: seq<Doc>, env: Env, u: UnitEntry, d: Doc)
    requires DistinctDocs(docs) && d in docs && DistinctFeed(setup) && Current(setup, docs, env, u)
    ensures var r := u.result.value;
            ReadsLive(u, d) <==>
              || Listed(env, u.key, r.primary, d.file)
              || (Feeds(setup, docs, env, u.key, r.primary, d.file) && FeedHas(setup, d.file, d.text))
  {
    var r := u.result.value;
    CurrentReads(setup, docs, env, u, d);
    ReadExactly(setup, u, d);
    var i :| 0 <= i < |docs| && docs[i] == d;
    assert IsOpen(docs, d.file);
    assert Present(docs, env.disk, d.file);
  }

  /** An analysis has another text than the live one of an open file it reads in one
      way only: the file is in the feed, the unit takes the feed and does not list the
      file, the feed's text differs, and the unit has no other copy of that text. */
  ghost predicate Shadowed(setup: Setup, docs: seq<Doc>, env: Env, k: Key, primary: File, d: Doc) {
    && env.heuristic(k, primary) && !Listed(env, k, primary, d.file)
    && exists j :: 0 <= j < |setup.feed| && setup.feed[j].0 == d.file && setup.feed[j].1 != d.text
                   && NoCopy(docs, env, k, primary, setup.feed[j].1)
  }

  lemma StaleExactlyWhenShadowed(setup: Setup, docs: seq<Doc>, env: Env, u: UnitEntry, d: Doc)
    requires DistinctDocs(docs) && d in docs && DistinctFeed(setup) && Current(setup, docs, env, u)
    ensures d.file in u.result.value.texts && u.result.value.texts[d.file] != d.text
            <==> Shadowed(setup, docs, env, u.key, u.result.value.primary, d)
  {
    var r := u.result.value;
    CurrentReads(setup, docs, env, u, d);
    assert IsOpen(docs, d.file);
    assert Present(docs, env.disk, d.file);
    if d.file in r.texts && r.texts[d.file] != d.text {
      assert d.file in r.fed;
      assert Feeds(setup, docs, env, u.key, r.primary, d.file);
      var j :| 0 <= j < |setup.feed| && setup.feed[j].0 == d.file && NoCopy(docs, env, u.key, r.primary, setup.feed[j].1);
      var i :| 0 <= i < |setup.feed| && setup.feed[i] == (d.file, r.texts[d.file]);
      assert i == j;
    }
    if Shadowed(setup, docs, env, u.key, r.primary, d) {
      var j :| 0 <= j < |setup.feed| && setup.feed[j].0 == d.file && setup.feed[j].1 != d.text
               && NoCopy(docs, env, u.key, r.primary, setup.feed[j].1);
      assert Feeds(setup, docs, env, u.key, r.primary, d.file);
      var i :| 0 <= i < |setup.feed| && setup.feed[i] == (d.file, r.texts[d.file]);
      assert i == j;
    }
  }

  /** A standard-library file opened beside a project: its edits reach its own unit,
      not the project's. */
  lemma FeedCanShadow()
    ensures exists setup: Setup, docs: seq<Doc>, env: Env, k: Key, primary: File, d: Doc ::
              DistinctDocs(docs) && DistinctFeed(setup) && d in docs && d.file != primary && Shadowed(setup, docs, env, k, primary, d)
  {
    var setup := Setup([(7, [1])]);
    var main, lib := Doc(1, [0], false, Some(1)), Doc(7, [2], false, Some(7));
    var docs := [main, lib];
    var env := Env(f => f, (k, f) => [], (k, f) => true, (k, f) => [], f => None, (k, f, t) => (true, []));
    assert NoCopy(docs, env, 1, 1, [1]) by {
      forall g: File | Listed(env, 1, 1, g) ensures !Live(docs, env.disk, g, [1]) {
        assert g == 1;
        assert docs[0].file == 1;
        assert IsOpen(docs, 1);
      }
    }
    assert setup.feed[0] == (7, [1]);
    assert Shadowed(setup, docs, env, 1, 1, lib);
  }

  // ----- what the client should see -----

  predicate InFeed(setup: Setup, f: File) {
    exists i :: 0 <= i < |setup.feed| && setup.feed[i].0 == f
  }

  /** Diagnostics a unit contributes: not on hidden files, nor on feed files that are
      not open. */
  predicate Reported(setup: Setup, docs: seq<Doc>, u: UnitEntry, d: Diag) {
    d.file !in u.hidden && (IsOpen(docs, d.file) || !InFeed(setup, d.file))
  }

  /** One more diagnostic, unless it is there already. */
  function Add(agg: seq<Diag>, d: Diag): seq<Diag> {
    if d in agg then agg else agg + [d]
  }

  function AddAll(setup: Setup, docs: seq<Doc>, u: UnitEntry, diags: seq<Diag>, agg: seq<Diag>): seq<Diag>
    decreases |diags|
  {
    if diags == [] then agg
    else
      AddAll(setup, docs, u, diags[1..], if Reported(setup, docs, u, diags[0]) then Add(agg, diags[0]) else agg)
  }

  function DiagsOf(u: UnitEntry): seq<Diag> {
    if u.result.Some? then u.result.value.diags else []
  }

  /** All units' diagnostics, each once. */
  function Aggregate(setup: Setup, docs: seq<Doc>, units: seq<UnitEntry>, agg: seq<Diag>): seq<Diag>
    decreases |units|
  {
    if units == [] then agg
    else Aggregate(setup, docs, units[1..], AddAll(setup, docs, units[0], DiagsOf(units[0]), agg))
  }

  function OfFile(agg: seq<Diag>, f: File): seq<Diag> {
    if agg == [] then [] else (if agg[0].file == f then [agg[0]] else []) + OfFile(agg[1..], f)
  }

  /** A file that is neither open nor on disk shows nothing. */
  function Expected(docs: seq<Doc>, disk: File -> Option<Text>, agg: seq<Diag>, f: File): seq<Diag> {
    if IsOpen(docs, f) || disk(f).Some? then OfFile(agg, f) else []
  }

  /** The last notification for each URI. */
  type Client = map<File, seq<Diag>>

  function Shown(client: Client, f: File): seq<Diag> {
    if f in client then client[f] else []
  }

  ghost predicate Truthful(setup: Setup, docs: seq<Doc>, units: seq<UnitEntry>, disk: File -> Option<Text>, client: Client) {
    var agg := Aggregate(setup, docs, units, []);
    forall f: File :: Shown(client, f) == Expected(docs, disk, agg, f)
  }

  lemma {:induction false} AggregateContents(setup: Setup, docs: seq<Doc>, units: seq<UnitEntry>, agg: seq<Diag>, d: Diag)
    ensures d in Aggregate(setup, docs, units, agg) <==>
            d in agg || exists i :: 0 <= i < |units| && d in DiagsOf(units[i]) && Reported(setup, docs, units[i], d)
    decreases |units|
  {
    if units != [] {
      var mid := AddAll(setup, docs, units[0], DiagsOf(units[0]), agg);
      AddedContents(setup, docs, units[0], DiagsOf(units[0]), agg, d);
      AggregateContents(setup, docs, units[1..], mid, d);
      if i :| 0 <= i < |units| && d in DiagsOf(units[i]) && Reported(setup, docs, units[i], d) {
        if i > 0 {
          assert units[1..][i - 1] == units[i];
        }
      }
      if i :| 0 <= i < |units[1..]| && d in DiagsOf(units[1..][i]) && Reported(setup, docs, units[1..][i], d) {
        assert units[i + 1] == units[1..][i];
      }
    }
  }

  lemma {:induction false} AddedContents(setup: Setup, docs: seq<Doc>, u: UnitEntry, diags: seq<Diag>, agg: seq<Diag>, d: Diag)
    ensures d in AddAll(setup, docs, u, diags, agg) <==> d in agg || (d in diags && Reported(setup, docs, u, d))
    decreases |diags|
  {
    if diags != [] {
      var next := if Reported(setup, docs, u, diags[0]) then Add(agg, diags[0]) else agg;
      AddedContents(setup, docs, u, diags[1..], next, d);
      assert d in diags <==> d == diags[0] || d in diags[1..];
    }
  }
}
