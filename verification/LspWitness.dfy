/** Sessions in which an open document's text reaches no analysis that should have it. */
module LspWitness {
  import opened LspModel
  import opened LspServer

  const QUIET: (Key, File, map<File, Text>) -> (bool, seq<Diag>) := (k, f, texts) => (true, [])

  /** One directory, its files not saved yet. */
  function NewDirectory(): Env {
    Env(f => 1, (k, f) => [], (k, f) => true, (k, f) => [], f => None, QUIET)
  }

  /** File 1 forms unit 1, whose `lsp.rsp` lists file 2 of another directory; file 2 is
      not there. */
  function SharedFile(): Env {
    Env(f => f, (k, f) => if k == 1 then [2] else [], (k, f) => false, (k, f) => [], f => None, QUIET)
  }

  lemma OneOfTwo(docs: seq<Doc>, u: UnitEntry)
    requires |docs| == 2 && docs[0].file == 1 && docs[1].file == 2 && DistinctDocs(docs)
    requires Current(Setup([]), docs, NewDirectory(), u)
    ensures !ReadsLive(u, docs[0]) || !ReadsLive(u, docs[1])
  {
    MissedExactly(Setup([]), docs, NewDirectory(), u, docs[0]);
    MissedExactly(Setup([]), docs, NewDirectory(), u, docs[1]);
  }

  /** Two new files of one directory are opened. A directory's unit is its first open
      document and the files on disk, so one of the two is analyzed nowhere, although
      the unit is its own. */
  method UnsavedNeighbour(a: Text, b: Text) returns (s: Server)
    ensures s.Valid() && |s.docs| == 2 && !AnyDirty(s.docs) && |s.units| > 0
    ensures exists i :: 0 <= i < 2 && s.docs[i].key == Some(s.units[0].key) && !ReadsLive(s.units[0], s.docs[i])
  {
    hide Current, ReadsLive, ReadsDoc, Apart, Retains, Truthful, UnitSound;
    s := new Server(Setup([]));
    s.DidOpen(1, a);
    assert s.docs == [Doc(1, a, true, None)];
    s.DidOpen(2, b);
    ghost var before := s.docs;
    assert before == [Doc(1, a, true, None), Doc(2, b, true, None)];
    assert before[0].dirty;
    s.FlushDirty(NewDirectory());
    assert s.docs[0].file == 1 && s.docs[1].file == 2;
    assert s.docs[0].key == Some(1) && s.docs[1].key == Some(1);
    var d :| 0 <= d < |s.docs| && s.docs[d].key == Some(s.units[0].key);
    assert s.units[0] in s.units;
    OneOfTwo(s.docs, s.units[0]);
  }

  lemma Absent(docs: seq<Doc>, u: UnitEntry)
    requires |docs| == 1 && docs[0].file == 1 && DistinctDocs(docs)
    requires u.key == 1 && Current(Setup([]), docs, SharedFile(), u)
    ensures 2 !in u.files && 2 in u.result.value.listing && u.result.value.fed == {}
  {
    assert !IsOpen(docs, 2);
    assert forall f :: !Feeds(Setup([]), docs, SharedFile(), 1, u.result.value.primary, f);
    assert u.result.value.primary != 2 ==> 2 in u.result.value.listing;
  }

  method OpenLister(a: Text) returns (s: Server, ghost u: UnitEntry)
    ensures fresh(s) && s.setup == Setup([]) && s.Valid() && !AnyDirty(s.docs)
    ensures |s.docs| == 1 && s.docs[0].file == 1 && s.docs[0].key == Some(1)
    ensures u in s.units && u.key == 1 && u.result.Some? && UnitSound(u)
    ensures 2 !in u.files && 2 in u.result.value.listing
  {
    hide Current, ReadsDoc, Apart, Retains, Truthful;
    s := new Server(Setup([]));
    s.DidOpen(1, a);
    assert s.docs == [Doc(1, a, true, None)];
    assert s.docs[0].dirty;
    s.FlushDirty(SharedFile());
    assert s.docs[0].key == Some(1);
    var at :| 0 <= at < |s.units| && s.units[at].key == 1;
    u := s.units[at];
    assert u in s.units;
    Absent(s.docs, u);
  }

  /** A file that a unit lists is opened before it is saved. The unit has no record of
      it, so nothing makes it look again: it goes on without the file's text. */
  method ListedLater(a: Text, b: Text) returns (s: Server)
    ensures s.Valid() && |s.docs| == 2 && s.docs[1].file == 2 && !AnyDirty(s.docs)
    ensures exists u :: u in s.units && u.result.Some? && 2 in u.result.value.listing && !ReadsLive(u, s.docs[1])
  {
    hide Current, ReadsDoc, Apart, Retains, Truthful, Concerned;
    ghost var u;
    s, u := OpenLister(a);
    ghost var main := s.docs[0];
    s.DidOpen(2, b);
    ghost var before := s.docs;
    assert before == [main, Doc(2, b, true, None)];
    assert before[1].dirty;
    s.FlushDirty(SharedFile());
    assert s.docs[0].key == Some(1) && s.docs[1].key == Some(2) && s.docs[1].file == 2;
    assert HasKey(s.docs, u.key);
    assert !main.dirty;
    NotConcerned(before, s.docs, u);
  }

  lemma NotConcerned(before: seq<Doc>, after: seq<Doc>, u: UnitEntry)
    requires |before| == |after| == 2 && !before[0].dirty && before[0].key == after[0].key
    requires after[1].file == 2 && after[1].key == Some(2) && u.key == 1 && 2 !in u.files
    ensures !Concerned(before, after, u)
  {
  }
}
