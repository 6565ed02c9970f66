/** What the server's invariants say of a file and of a unit, in the words of the editor
    and of the compiler. */
module LspMeaning {
  import opened LspModel
  import opened LspServer

  // ----- what the editor shows -----

  predicate Edits(docs: seq<Doc>, f: File) {
    exists d :: d in docs && d.file == f
  }

  predicate Library(setup: Setup, f: File) {
    exists e :: e in setup.feed && e.0 == f
  }

  /** The unit's analysis has the diagnostic, and it is to be seen: the unit does not hide
      its file, and a library file must be open. */
  predicate Says(setup: Setup, docs: seq<Doc>, u: UnitEntry, d: Diag) {
    && u.result.Some? && d in u.result.value.diags
    && d.file !in u.hidden && (Library(setup, d.file) ==> Edits(docs, d.file))
  }

  lemma SaysIs(setup: Setup, docs: seq<Doc>, u: UnitEntry, d: Diag)
    ensures Says(setup, docs, u, d) <==> d in DiagsOf(u) && Reported(setup, docs, u, d)
  {
    OpenIs(docs, d.file);
    LibraryIs(setup, d.file);
  }

  lemma OpenIs(docs: seq<Doc>, f: File)
    ensures IsOpen(docs, f) <==> Edits(docs, f)
  {
    if IsOpen(docs, f) {
      var i :| 0 <= i < |docs| && docs[i].file == f;
      assert docs[i] in docs;
    }
  }

  lemma LibraryIs(setup: Setup, f: File)
    ensures InFeed(setup, f) <==> Library(setup, f)
  {
    if InFeed(setup, f) {
      var i :| 0 <= i < |setup.feed| && setup.feed[i].0 == f;
      assert setup.feed[i] in setup.feed;
    }
  }

  /** A truthful editor shows for a file, if it is open or on disk, exactly what some unit
      says of it, each diagnostic once. */
  lemma EditorShows(setup: Setup, docs: seq<Doc>, units: seq<UnitEntry>, disk: File -> Option<Text>, client: Client, f: File)
    requires Truthful(setup, docs, units, disk, client)
    ensures forall d :: d in Shown(client, f) <==>
                          && d.file == f && (Edits(docs, f) || disk(f).Some?)
                          && exists u :: u in units && Says(setup, docs, u, d)
    ensures forall i, j :: 0 <= i < |Shown(client, f)| && 0 <= j < |Shown(client, f)| && Shown(client, f)[i] == Shown(client, f)[j] ==> i == j
  {
    hide Truthful, Aggregate, Says, Reported, Shown, OfFile;
    var agg := Aggregate(setup, docs, units, []);
    ExpectedIsShown(setup, docs, units, disk, client, f);
    OpenIs(docs, f);
    forall d ensures d in agg <==> exists u :: u in units && Says(setup, docs, u, d) {
      AggregateContents(setup, docs, units, [], d);
      SomeSays(setup, docs, units, d);
    }
    OnlyOfFile(agg, f);
    OnceInAll(setup, docs, units, []);
    OnceOfFile(agg, f);
  }

  lemma ExpectedIsShown(setup: Setup, docs: seq<Doc>, units: seq<UnitEntry>, disk: File -> Option<Text>, client: Client, f: File)
    requires Truthful(setup, docs, units, disk, client)
    ensures Shown(client, f) == Expected(docs, disk, Aggregate(setup, docs, units, []), f)
  {
  }

  lemma SomeSays(setup: Setup, docs: seq<Doc>, units: seq<UnitEntry>, d: Diag)
    ensures (exists u :: u in units && Says(setup, docs, u, d)) <==>
            exists i :: 0 <= i < |units| && d in DiagsOf(units[i]) && Reported(setup, docs, units[i], d)
  {
    hide Says, Reported;
    if u :| u in units && Says(setup, docs, u, d) {
      var i :| 0 <= i < |units| && units[i] == u;
      SaysIs(setup, docs, units[i], d);
    }
    if i :| 0 <= i < |units| && d in DiagsOf(units[i]) && Reported(setup, docs, units[i], d) {
      SaysIs(setup, docs, units[i], d);
      assert units[i] in units;
    }
  }

  lemma {:induction false} OnlyOfFile(agg: seq<Diag>, f: File)
    ensures forall d :: d in OfFile(agg, f) <==> d in agg && d.file == f
  {
    if agg != [] {
      OnlyOfFile(agg[1..], f);
      assert forall d :: d in agg <==> d == agg[0] || d in agg[1..];
    }
  }

  predicate Once(s: seq<Diag>) {
    forall i, j :: 0 <= i < |s| && 0 <= j < |s| && s[i] == s[j] ==> i == j
  }

  lemma {:induction false} OnceOfFile(agg: seq<Diag>, f: File)
    requires Once(agg)
    ensures Once(OfFile(agg, f))
  {
    if agg != [] {
      var rest := agg[1..];
      assert Once(rest) by {
        forall i, j | 0 <= i < |rest| && 0 <= j < |rest| && rest[i] == rest[j] ensures i == j {
          assert agg[i + 1] == agg[j + 1];
        }
      }
      OnceOfFile(rest, f);
      OnlyOfFile(rest, f);
      assert agg[0] !in rest;
    }
  }

  lemma {:induction false} OnceAdded(setup: Setup, docs: seq<Doc>, u: UnitEntry, diags: seq<Diag>, agg: seq<Diag>)
    requires Once(agg)
    ensures Once(AddAll(setup, docs, u, diags, agg))
    decreases |diags|
  {
    hide Reported;
    if diags != [] {
      OnceAdded(setup, docs, u, diags[1..], if Reported(setup, docs, u, diags[0]) then Add(agg, diags[0]) else agg);
    }
  }

  lemma {:induction false} OnceInAll(setup: Setup, docs: seq<Doc>, units: seq<UnitEntry>, agg: seq<Diag>)
    requires Once(agg)
    ensures Once(Aggregate(setup, docs, units, agg))
    decreases |units|
  {
    if units != [] {
      OnceAdded(setup, docs, units[0], DiagsOf(units[0]), agg);
      OnceInAll(setup, docs, units[1..], AddAll(setup, docs, units[0], DiagsOf(units[0]), agg));
    }
  }

  // ----- what an analysis is of -----

  /** The unit's own file, or one it lists. */
  predicate Asked(env: Env, k: Key, primary: File, f: File) {
    f == primary || exists i :: 0 <= i < |env.listed(k, primary)| && env.listed(k, primary)[i] == f
  }

  /** A current analysis is of a document's buffer where the unit asks for its file, and
      of the saved text where it asks for a file that is not open; its verdict and its
      diagnostics are what the compiler says of just those texts. */
  lemma CurrentReadsAsked(setup: Setup, docs: seq<Doc>, env: Env, u: UnitEntry, f: File)
    requires Current(setup, docs, env, u) && DistinctDocs(docs) && Asked(env, u.key, u.result.value.primary, f)
    ensures var r := u.result.value;
            && (forall d :: d in docs && d.file == f ==> f in r.texts && r.texts[f] == d.text)
            && (!Edits(docs, f) ==> if env.disk(f).Some? then f in r.texts && r.texts[f] == env.disk(f).value else f in r.texts ==> f in r.fed)
            && env.compile(u.key, r.primary, r.texts) == (r.typed, r.diags)
            && r.listing == env.listed(u.key, r.primary) && u.hidden == env.hidden(u.key, r.primary)
  {
    var r := u.result.value;
    assert Listed(env, u.key, r.primary, f);
    OpenIs(docs, f);
    forall d | d in docs && d.file == f ensures f in r.texts && r.texts[f] == d.text {
      var i :| 0 <= i < |docs| && docs[i] == d;
      assert IsOpen(docs, f) && Present(docs, env.disk, f);
      assert f !in r.fed;
      assert Live(docs, env.disk, f, r.texts[f]);
    }
  }

  /** Of a file the unit does not ask for it has, at most, the library's text; and that
      only if it takes the library and asks for no file with the same text. */
  lemma CurrentReadsLibrary(setup: Setup, docs: seq<Doc>, env: Env, u: UnitEntry, f: File)
    requires Current(setup, docs, env, u) && DistinctFeed(setup) && !Asked(env, u.key, u.result.value.primary, f)
    ensures var r := u.result.value;
            && (f in r.texts ==> env.heuristic(u.key, r.primary) && (f, r.texts[f]) in setup.feed && !SomeAskedHas(docs, env, u.key, r.primary, r.texts[f]))
            && (forall text :: env.heuristic(u.key, r.primary) && (f, text) in setup.feed && !SomeAskedHas(docs, env, u.key, r.primary, text) ==>
                  f in r.texts && r.texts[f] == text)
  {
    hide SomeAskedHas;
    var r := u.result.value;
    assert !Listed(env, u.key, r.primary, f);
    if f in r.texts {
      assert f in r.fed && FeedHas(setup, f, r.texts[f]) && Feeds(setup, docs, env, u.key, r.primary, f);
      var j :| 0 <= j < |setup.feed| && setup.feed[j].0 == f && NoCopy(docs, env, u.key, r.primary, setup.feed[j].1);
      CopyIs(docs, env, u.key, r.primary, setup.feed[j].1);
    }
    forall text | env.heuristic(u.key, r.primary) && (f, text) in setup.feed && !SomeAskedHas(docs, env, u.key, r.primary, text)
      ensures f in r.texts && r.texts[f] == text
    {
      var j :| 0 <= j < |setup.feed| && setup.feed[j] == (f, text);
      CopyIs(docs, env, u.key, r.primary, text);
      assert Feeds(setup, docs, env, u.key, r.primary, f);
      assert FeedHas(setup, f, r.texts[f]);
    }
  }

  /** A file the unit asks for has this text: in the editor, or on disk when not open. */
  ghost predicate SomeAskedHas(docs: seq<Doc>, env: Env, k: Key, primary: File, text: Text) {
    exists f: File :: Asked(env, k, primary, f) && HasNow(docs, env, f, text)
  }

  predicate HasNow(docs: seq<Doc>, env: Env, f: File, text: Text) {
    if Edits(docs, f) then exists d :: d in docs && d.file == f && d.text == text else env.disk(f) == Some(text)
  }

  lemma CopyIs(docs: seq<Doc>, env: Env, k: Key, primary: File, text: Text)
    ensures NoCopy(docs, env, k, primary, text) <==> !SomeAskedHas(docs, env, k, primary, text)
  {
    forall f: File
      ensures Listed(env, k, primary, f) <==> Asked(env, k, primary, f)
      ensures Live(docs, env.disk, f, text) <==> HasNow(docs, env, f, text)
    {
      OpenIs(docs, f);
      LiveIs(docs, env, f, text);
    }
  }

  lemma LiveIs(docs: seq<Doc>, env: Env, f: File, text: Text)
    ensures Live(docs, env.disk, f, text) <==> HasNow(docs, env, f, text)
  {
    OpenIs(docs, f);
    if i :| 0 <= i < |docs| && docs[i].file == f && docs[i].text == text {
      assert docs[i] in docs;
    }
  }

  // ----- who is concerned, and who owns what -----

  /** A unit that no edit concerns: every document it has on record, or that forms it, is
      as it was when last analyzed, and forms the unit it formed then. */
  lemma NotConcerned(before: seq<Doc>, after: seq<Doc>, u: UnitEntry)
    requires |before| == |after|
    ensures !Concerned(before, after, u) <==>
            forall i :: 0 <= i < |after| && (after[i].key == Some(u.key) || after[i].file in u.files) ==>
              !before[i].dirty && before[i].key == after[i].key
  {
  }

  /** A unit owns its last analysis and its last good one; no two units own the same, and
      the good one is the last itself when that is good. */
  lemma OwnersAre(units: seq<UnitEntry>, id: nat, i: nat, j: nat)
    requires Apart(units) && i < |units| && j < |units| && Retains(units[i])
    ensures id in Owned(units[i]) <==>
            (units[i].result.Some? && units[i].result.value.id == id) || (units[i].lastGood.Some? && units[i].lastGood.value.id == id)
    ensures id in Owned(units[i]) && id in Owned(units[j]) ==> i == j
    ensures units[i].lastGood.Some? ==> units[i].lastGood.value.typed
    ensures units[i].result.Some? && units[i].result.value.typed ==> units[i].lastGood == units[i].result
  {
    assert i < j ==> Owned(units[i]) !! Owned(units[j]);
    assert j < i ==> Owned(units[j]) !! Owned(units[i]);
  }

  /** What a message does to the editor's buffers. */
  lemma MessagesAre(buffers: map<File, Text>, f: File, g: File, text: Text)
    ensures Edited(buffers, Opened(f, text)) == map h | h in buffers.Keys + {f} :: if h == f then text else buffers[h]
    ensures f in buffers ==> Edited(buffers, Changed(f, Some(text))) == map h | h in buffers :: if h == f then text else buffers[h]
    ensures f !in buffers ==> Edited(buffers, Changed(f, Some(text))) == buffers
    ensures Edited(buffers, Changed(f, None)) == buffers && Edited(buffers, Idle) == buffers
    ensures Edited(buffers, Closing(f)) == map h | h in buffers && h != f :: buffers[h]
  {
  }

  /** The text the editor holds is the document's, and the unit's analysis is of it. */
  lemma ReadingIs(setup: Setup, u: UnitEntry, d: Doc)
    requires u.result.Some?
    ensures var r := u.result.value;
            && (ReadsLive(u, d) <==> d.file in r.texts && r.texts[d.file] == d.text)
            && (d.file in r.fed ==> (OnRecord(setup, u, d) <==> (d.file, d.text) in setup.feed))
            && (d.file !in r.fed ==>
                  (OnRecord(setup, u, d) <==> (d.file == r.primary || d.file in r.listing) && (d.key == Some(u.key) || d.file in u.files)))
  {
    if (d.file, d.text) in setup.feed {
      var i :| 0 <= i < |setup.feed| && setup.feed[i] == (d.file, d.text);
    }
  }

  /** Messages are taken one after the other. */
  lemma SessionIs(buffers: map<File, Text>, ms: seq<Message>, m: Message)
    ensures AllEdited(buffers, []) == buffers && AllEdited(buffers, ms + [m]) == Edited(AllEdited(buffers, ms), m)
  {
    assert (ms + [m])[..|ms|] == ms;
  }

  /** Holding the editor's buffers: a document for each, with its text, and no other. */
  lemma HoldsBuffers(docs: seq<Doc>, buffers: map<File, Text>)
    ensures Mirrors(docs, buffers) <==>
            (forall d :: d in docs ==> d.file in buffers && buffers[d.file] == d.text) && (forall f :: f in buffers ==> Edits(docs, f))
  {
    if Mirrors(docs, buffers) {
      forall d | d in docs ensures d.file in buffers && buffers[d.file] == d.text {
        var i :| 0 <= i < |docs| && docs[i] == d;
        assert HasText(docs, d.file, d.text);
      }
      forall f | f in buffers ensures Edits(docs, f) {
        assert HasText(docs, f, buffers[f]);
      }
    }
    if (forall d :: d in docs ==> d.file in buffers && buffers[d.file] == d.text) && (forall f :: f in buffers ==> Edits(docs, f)) {
      forall f: File, t: Text ensures HasText(docs, f, t) <==> f in buffers && buffers[f] == t {
        if HasText(docs, f, t) {
          var i :| 0 <= i < |docs| && docs[i].file == f && docs[i].text == t;
          assert docs[i] in docs;
        }
        if f in buffers && buffers[f] == t {
          var d :| d in docs && d.file == f;
          var i :| 0 <= i < |docs| && docs[i] == d;
        }
      }
    }
  }

  /** The library has each file once, and no two documents are of one file. */
  lemma OnceEach(setup: Setup, docs: seq<Doc>)
    ensures DistinctFeed(setup) <==>
            forall i, j :: 0 <= i < |setup.feed| && 0 <= j < |setup.feed| && setup.feed[i].0 == setup.feed[j].0 ==> i == j
    ensures DistinctDocs(docs) <==>
            forall i, j :: 0 <= i < |docs| && 0 <= j < |docs| && docs[i].file == docs[j].file ==> i == j
  {
  }
}
