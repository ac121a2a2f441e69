/** Properties of one whole reconciliation pass over a file opened from disk: which
    records survive, what the flushed file holds, what is fetched, and what an
    aborted pass leaves behind. */
module SyncTheorems {
  import opened Base
  import opened Text
  import opened Archive
  import opened Sync
  import opened SyncAdd

  /** The identities the records of a file carry. */
  function LocalIds(file: File): set<Identity> {
    set j | 0 <= j < |file| :: file[j].messageId
  }

  /** Record `k` of the file is followed by another record with the same identity,
      so the index built from the file does not name it. */
  predicate Shadowed(file: File, k: int) {
    0 <= k < |file| && exists j :: k < j < |file| && file[j].messageId == file[k].messageId
  }

  /** The identities the remote folder lists. */
  function Remote(s: Session): set<Identity> {
    RemoteIds(s, Listed(s))
  }

  /** The index of a freshly opened file: one entry per identity of the file, none
      confirmed, each naming the last record with that identity. */
  lemma OpenedIndex(file: File)
    ensures var idx := CreateMsgsInfo(Open(file));
      && idx.Keys == LocalIds(file)
      && (forall id :: id in idx ==>
            !idx[id].existsInImap && idx[id].mboxId < |file| && file[idx[id].mboxId].messageId == id)
      && (forall k :: 0 <= k < |file| ==> (idx[file[k].messageId].mboxId == k <==> !Shadowed(file, k)))
      && Tracks(Open(file), idx)
  {
    var box := Open(file);
    var idx := CreateMsgsInfo(box);
    IndexTracks(box);
    assert forall j, id :: Holds(box, j, id) <==> 0 <= j < |file| && file[j].messageId == id;
    forall id | id in LocalIds(file) ensures id in idx {
      var j :| 0 <= j < |file| && file[j].messageId == id;
      assert Holds(box, j, id);
    }
    forall k | 0 <= k < |file|
      ensures idx[file[k].messageId].mboxId == k <==> !Shadowed(file, k)
    {
      var id := file[k].messageId;
      assert Holds(box, k, id);
      var m := idx[id].mboxId;
      if m != k {
        assert k < m && file[m].messageId == id;
      } else {
        forall j | k < j < |file| ensures file[j].messageId != id {
          assert !Holds(box, j, id);
        }
      }
    }
  }

  /** The add phase of a pass over an opened file. */
  function AddPhase(s: Session, file: File): AddOutcome {
    AddMissing(s, Listed(s), Open(file), CreateMsgsInfo(Open(file)))
  }

  /** After the add phase, the keys left unconfirmed are exactly the records of the
      file that the index names and that the remote folder does not list. */
  lemma UnwantedAfterAdd(s: Session, file: File)
    requires AddPhase(s, file).Added?
    ensures var p := AddPhase(s, file).pass;
      forall k :: k in Unwanted(p.index) <==> 0 <= k < |file| && !Shadowed(file, k) && file[k].messageId !in Remote(s)
  {
    var box := Open(file);
    var idx := CreateMsgsInfo(box);
    var p := AddPhase(s, file).pass;
    OpenedIndex(file);
    AddedIndex(s, Listed(s), box, idx);
    forall k | k in Unwanted(p.index)
      ensures 0 <= k < |file| && !Shadowed(file, k) && file[k].messageId !in Remote(s)
    {
      var id :| id in p.index && !p.index[id].existsInImap && p.index[id].mboxId as int == k;
      assert id in idx;
    }
    forall k | 0 <= k < |file| && !Shadowed(file, k) && file[k].messageId !in Remote(s)
      ensures k in Unwanted(p.index)
    {
      var id := file[k].messageId;
      assert id in LocalIds(file);
      assert p.index[id].mboxId == k;
    }
  }

  /** `box` holds the records of `file`, each kept in place with its message and
      live exactly when a later record shadows it or `remote` lists its identity,
      followed by one live record per reference of `fetched`, holding its body. */
  ghost predicate Recorded(s: Session, file: File, remote: set<Identity>, box: Mbox, fetched: seq<Ref>) {
    && |box.entries| == |file| + |fetched|
    && (forall k :: 0 <= k < |file| ==>
          && box.entries[k].message == file[k]
          && (Present(box, k) <==> Shadowed(file, k) || file[k].messageId in remote))
    && (forall k :: |file| <= k < |box.entries| ==>
          Present(box, k) && box.entries[k].message == s.body(fetched[k - |file|]).data)
  }

  /** The records after a completed pass: the file's records keep their place and
      message, and one survives exactly when a later record shadows it or the remote
      folder lists its identity; after them come the fetched messages, one live
      record each, in fetch order. */
  lemma SyncedRecords(s: Session, file: File)
    requires SyncMailbox(s, Open(file)).Synced?
    ensures var r := SyncMailbox(s, Open(file)); Recorded(s, file, Remote(s), r.archive, r.fetched)
  {
    var box := Open(file);
    var p := AddPhase(s, file).pass;
    UnwantedAfterAdd(s, file);
    AddedRecords(s, Listed(s), box, CreateMsgsInfo(box));
    forall k | 0 <= k < |file| ensures p.archive.entries[k] == Entry(file[k], true) {
      assert p.archive.entries[k] == box.entries[k];
    }
    forall k | |file| <= k < |p.archive.entries|
      ensures p.archive.entries[k] == Entry(s.body(p.fetched[k - |file|]).data, true)
    {
      assert p.archive.entries[k] == Appended(s, p.fetched)[k - |file|];
    }
  }

  /** Convergence: after a completed pass the index covers the file's identities and
      the remote ones, and the indexed records still present are exactly those whose
      identity the remote folder lists. */
  lemma Convergence(s: Session, file: File)
    requires SyncMailbox(s, Open(file)).Synced?
    ensures var r := SyncMailbox(s, Open(file));
      && r.index.Keys == LocalIds(file) + Remote(s)
      && forall id :: (id in r.index && Present(r.archive, r.index[id].mboxId)) <==> id in Remote(s)
  {
    var box := Open(file);
    var idx := CreateMsgsInfo(box);
    OpenedIndex(file);
    AddedIndex(s, Listed(s), box, idx);
  }

  /** No re-fetch: the pass fetches only listed references whose identity the file
      lacks, never two with the same identity, and one for every remote identity the
      file lacks. */
  lemma FetchedIdentities(s: Session, file: File)
    requires SyncMailbox(s, Open(file)).Synced?
    ensures FetchesFor(s, Listed(s), LocalIds(file), SyncMailbox(s, Open(file)).fetched)
  {
    var box := Open(file);
    OpenedIndex(file);
    AddedFetches(s, Listed(s), box, CreateMsgsInfo(box));
  }

  /** The messages a list of fetched references brings, in order. */
  function Bodies(s: Session, refs: seq<Ref>): (r: File)
    ensures |r| == |refs|
  {
    seq(|refs|, i requires 0 <= i < |refs| => s.body(refs[i]).data)
  }

  /** The first `n` records of the file that a pass keeps when the remote folder
      lists `remote`: the shadowed ones and those with a listed identity, in order. */
  function Survivors(file: File, remote: set<Identity>, n: nat): (r: File)
    requires n <= |file|
    ensures |r| <= n
  {
    if n == 0 then []
    else
      var k := n - 1;
      Survivors(file, remote, k) + (if Shadowed(file, k) || file[k].messageId in remote then [file[k]] else [])
  }

  lemma {:induction false} SurvivorsFlushed(file: File, remote: set<Identity>, es: seq<Entry>, n: nat)
    requires n <= |file| <= |es|
    requires forall k :: 0 <= k < |file| ==>
      es[k].message == file[k] && (es[k].live <==> Shadowed(file, k) || file[k].messageId in remote)
    ensures Contents(Mbox(es[..n])) == Survivors(file, remote, n)
    decreases n
  {
    if n > 0 {
      assert es[..n][..n - 1] == es[..n - 1];
      SurvivorsFlushed(file, remote, es, n - 1);
    }
  }

  /** What a completed pass leaves in the mbox file: the surviving records of the old
      file in their old order, then the fetched messages in fetch order. */
  lemma FlushedFile(s: Session, file: File)
    requires SyncMailbox(s, Open(file)).Synced?
    ensures var r := SyncMailbox(s, Open(file));
      Contents(r.archive) == Survivors(file, Remote(s), |file|) + Bodies(s, r.fetched)
  {
    var r := SyncMailbox(s, Open(file));
    SyncedRecords(s, file);
    FlushedPass(s, file, Remote(s), r.archive, r.fetched);
  }

  lemma FlushedPass(s: Session, file: File, remote: set<Identity>, box: Mbox, fetched: seq<Ref>)
    requires Recorded(s, file, remote, box, fetched)
    ensures Contents(box) == Survivors(file, remote, |file|) + Bodies(s, fetched)
  {
    FlushedEntries(file, remote, box.entries, Bodies(s, fetched));
  }

  lemma FlushedEntries(file: File, remote: set<Identity>, es: seq<Entry>, added: File)
    requires |es| == |file| + |added|
    requires forall k :: 0 <= k < |file| ==>
      es[k].message == file[k] && (es[k].live <==> Shadowed(file, k) || file[k].messageId in remote)
    requires forall k :: |file| <= k < |es| ==> es[k].live && es[k].message == added[k - |file|]
    ensures Contents(Mbox(es)) == Survivors(file, remote, |file|) + added
  {
    var n := |file|;
    assert es == es[..n] + es[n..];
    ContentsAppend(es[..n], es[n..]);
    SurvivorsFlushed(file, remote, es, n);
    var tail := Mbox(es[n..]);
    FlushWithoutRemovals(tail);
    assert Written(tail) == added;
  }

  /** An empty remote listing purges every record the index names: only shadowed
      records are left, and nothing is fetched. */
  lemma EmptyRemotePurges(s: Session, file: File)
    requires s.search.status == OK && Listed(s) == []
    ensures SyncMailbox(s, Open(file)).Synced?
    ensures var r := SyncMailbox(s, Open(file));
      && r.fetched == []
      && (forall k :: 0 <= k < |file| ==> (Present(r.archive, k) <==> Shadowed(file, k)))
      && Contents(r.archive) == Survivors(file, {}, |file|)
  {
    var r := SyncMailbox(s, Open(file));
    assert Remote(s) == {};
    SyncedRecords(s, file);
    FlushedFile(s, file);
    assert Bodies(s, []) == [];
    assert Survivors(file, {}, |file|) + [] == Survivors(file, {}, |file|);
  }

  /** A pass completes whenever the listing and every header and full fetch succeed. */
  lemma AllRepliesOk(s: Session, file: File)
    requires s.search.status == OK
    requires forall k :: 0 <= k < |Listed(s)| ==>
      s.header(Listed(s)[k]).status == OK && s.body(Listed(s)[k]).status == OK
    ensures SyncMailbox(s, Open(file)).Synced?
  {
    AllFetchesSucceed(s, Listed(s), Open(file), CreateMsgsInfo(Open(file)));
  }

  /** A pass aborts only because the listing failed or some listed message could not
      be fetched. */
  lemma AbortCause(s: Session, file: File)
    requires SyncMailbox(s, Open(file)).Aborted?
    ensures s.search.status != OK ||
      (exists k :: 0 <= k < |Listed(s)| &&
         (s.header(Listed(s)[k]).status != OK || s.body(Listed(s)[k]).status != OK))
  {
    if s.search.status == OK {
      HaltCause(s, Listed(s), Open(file), CreateMsgsInfo(Open(file)));
    }
  }

  /** An aborted pass never reaches the removals: the file still starts with every
      original record, followed only by messages appended before the failure, and
      nothing is pending removal. */
  lemma AbortKeepsFile(s: Session, file: File)
    requires SyncMailbox(s, Open(file)).Aborted?
    ensures var a := SyncMailbox(s, Open(file)).archive;
      && |file| <= |Written(a)| && Written(a)[..|file|] == file
      && Contents(a) == Written(a)
  {
    var a := SyncMailbox(s, Open(file)).archive;
    var box := Open(file);
    assert forall k :: 0 <= k < |file| ==> a.entries[k] == box.entries[k];
    FlushWithoutRemovals(a);
  }

  /** The identities a listing names depend only on the set of listed references:
      listing the same references in another order, or with repeats, names the same
      identities. Those identities are all that `SyncedRecords` consults to decide
      which of the file's records survive. */
  lemma ListingOrderIrrelevant(s: Session, a: seq<Ref>, b: seq<Ref>)
    requires forall r :: r in a <==> r in b
    ensures RemoteIds(s, a) == RemoteIds(s, b)
  {
    RemoteIdsMembers(s, a);
    RemoteIdsMembers(s, b);
    forall id | id in RemoteIds(s, a) ensures id in RemoteIds(s, b) {
      var i :| 0 <= i < |a| && IdOf(s, a[i]) == id;
      assert a[i] in b;
    }
    forall id | id in RemoteIds(s, b) ensures id in RemoteIds(s, a) {
      var i :| 0 <= i < |b| && IdOf(s, b[i]) == id;
      assert b[i] in a;
    }
  }

  // ---------------------------------------------------------------------------
  // The removal loop
  // ---------------------------------------------------------------------------

  /** The keys the removal loop removes when it visits the entries in `order`. */
  function UnwantedIn(idx: Index, order: seq<Identity>): set<int>
    requires forall i :: 0 <= i < |order| ==> order[i] in idx
  {
    set i | 0 <= i < |order| && !idx[order[i]].existsInImap :: idx[order[i]].mboxId as int
  }

  lemma DiscardTwice(box: Mbox, a: set<int>, b: set<int>)
    ensures Discard(Discard(box, a), b) == Discard(box, a + b)
  {
    assert Discard(Discard(box, a), b).entries == Discard(box, a + b).entries;
  }

  lemma UnwantedInCons(idx: Index, order: seq<Identity>)
    requires |order| > 0
    requires forall i :: 0 <= i < |order| ==> order[i] in idx
    ensures var info := idx[order[0]];
      UnwantedIn(idx, order) == (if info.existsInImap then {} else {info.mboxId as int}) + UnwantedIn(idx, order[1..])
  {
    var rest := order[1..];
    forall k | k in UnwantedIn(idx, order) && k !in UnwantedIn(idx, rest)
      ensures !idx[order[0]].existsInImap && k == idx[order[0]].mboxId as int
    {
      var i :| 0 <= i < |order| && !idx[order[i]].existsInImap && idx[order[i]].mboxId as int == k;
    }
    forall k | k in UnwantedIn(idx, rest) ensures k in UnwantedIn(idx, order) {
      var i :| 0 <= i < |rest| && !idx[rest[i]].existsInImap && idx[rest[i]].mboxId as int == k;
      assert order[i + 1] == rest[i];
    }
  }

  lemma {:induction false} RemoveLoop(box: Mbox, idx: Index, order: seq<Identity>)
    requires forall i :: 0 <= i < |order| ==> order[i] in idx
    requires forall i, j :: 0 <= i < j < |order| ==> order[i] != order[j]
    requires forall i :: 0 <= i < |order| && !idx[order[i]].existsInImap ==> Present(box, idx[order[i]].mboxId)
    requires forall id1, id2 :: id1 in idx && id2 in idx && idx[id1].mboxId == idx[id2].mboxId ==> id1 == id2
    ensures RemoveInOrder(box, idx, order) == Ok(Discard(box, UnwantedIn(idx, order)))
    decreases |order|
  {
    if |order| == 0 {
      assert UnwantedIn(idx, order) == {};
      assert Discard(box, {}).entries == box.entries;
    } else {
      var rest := order[1..];
      var info := idx[order[0]];
      UnwantedInCons(idx, order);
      if info.existsInImap {
        assert UnwantedIn(idx, order) == UnwantedIn(idx, rest);
        RemoveLoop(box, idx, rest);
      } else {
        var m := info.mboxId as int;
        var b := Discard(box, {m});
        forall i | 0 <= i < |rest| && !idx[rest[i]].existsInImap ensures Present(b, idx[rest[i]].mboxId) {
          assert rest[i] == order[i + 1];
        }
        RemoveLoop(b, idx, rest);
        DiscardTwice(box, {m}, UnwantedIn(idx, rest));
      }
    }
  }

  /** The removal loop as written, visiting the index in any order that lists each
      entry once, never raises and removes exactly what `RemoveUnwanted` removes,
      provided the index agrees with the archive. */
  lemma RemoveInOrderAgrees(box: Mbox, idx: Index, order: seq<Identity>)
    requires Tracks(box, idx)
    requires forall i :: 0 <= i < |order| ==> order[i] in idx
    requires forall id :: id in idx ==> id in order
    requires forall i, j :: 0 <= i < j < |order| ==> order[i] != order[j]
    ensures RemoveInOrder(box, idx, order) == Ok(RemoveUnwanted(box, idx))
  {
    RemoveLoop(box, idx, order);
    forall k | k in Unwanted(idx) ensures k in UnwantedIn(idx, order) {
      var id :| id in idx && !idx[id].existsInImap && idx[id].mboxId as int == k;
      var i :| 0 <= i < |order| && order[i] == id;
    }
    forall k | k in UnwantedIn(idx, order) ensures k in Unwanted(idx) {
      var i :| 0 <= i < |order| && !idx[order[i]].existsInImap && idx[order[i]].mboxId as int == k;
      assert order[i] in idx;
    }
    assert UnwantedIn(idx, order) == Unwanted(idx);
  }

  /** In a completed pass the index agrees with the archive when the removals start,
      so the loop over the index in its iteration order raises no KeyError and
      leaves the archive the pass reports. */
  lemma RemovalNeverRaises(s: Session, file: File, order: seq<Identity>)
    requires SyncMailbox(s, Open(file)).Synced?
    requires forall i :: 0 <= i < |order| ==> order[i] in SyncMailbox(s, Open(file)).index
    requires forall id :: id in SyncMailbox(s, Open(file)).index ==> id in order
    requires forall i, j :: 0 <= i < j < |order| ==> order[i] != order[j]
    ensures var r := SyncMailbox(s, Open(file));
      RemoveInOrder(AddPhase(s, file).pass.archive, r.index, order) == Ok(r.archive)
  {
    var box := Open(file);
    OpenedIndex(file);
    AddedIndex(s, Listed(s), box, CreateMsgsInfo(box));
    var p := AddPhase(s, file).pass;
    RemoveInOrderAgrees(p.archive, p.index, order);
  }

  // ---------------------------------------------------------------------------
  // A second pass
  // ---------------------------------------------------------------------------

  lemma {:induction false} SurvivorsContain(file: File, remote: set<Identity>, n: nat, k: nat)
    requires k < n <= |file|
    requires Shadowed(file, k) || file[k].messageId in remote
    ensures file[k] in Survivors(file, remote, n)
    decreases n
  {
    if k < n - 1 {
      SurvivorsContain(file, remote, n - 1, k);
    }
  }

  /** After a completed pass every remote identity is carried by some record of the
      flushed file, provided each fetched message carries the Message-Id its header
      reply showed. */
  lemma RemoteCoveredAfterSync(s: Session, file: File)
    requires SyncMailbox(s, Open(file)).Synced?
    requires forall i :: 0 <= i < |Listed(s)| ==> s.body(Listed(s)[i]).data.messageId == IdOf(s, Listed(s)[i])
    ensures Remote(s) <= LocalIds(Contents(SyncMailbox(s, Open(file)).archive))
  {
    forall id | id in Remote(s) ensures id in LocalIds(Contents(SyncMailbox(s, Open(file)).archive)) {
      if id in LocalIds(file) {
        KeptIdentityCovered(s, file, id);
      } else {
        FetchedIdentityCovered(s, file, id);
      }
    }
  }

  lemma KeptIdentityCovered(s: Session, file: File, id: Identity)
    requires SyncMailbox(s, Open(file)).Synced?
    requires id in Remote(s) && id in LocalIds(file)
    ensures id in LocalIds(Contents(SyncMailbox(s, Open(file)).archive))
  {
    var r := SyncMailbox(s, Open(file));
    FlushedFile(s, file);
    OpenedIndex(file);
    var k := CreateMsgsInfo(Open(file))[id].mboxId;
    SurvivorsContain(file, Remote(s), |file|, k);
    LocalIdOf(Survivors(file, Remote(s), |file|), file[k]);
    LocalIdsConcat(Survivors(file, Remote(s), |file|), Bodies(s, r.fetched));
  }

  lemma FetchedIdentityCovered(s: Session, file: File, id: Identity)
    requires SyncMailbox(s, Open(file)).Synced?
    requires forall i :: 0 <= i < |Listed(s)| ==> s.body(Listed(s)[i]).data.messageId == IdOf(s, Listed(s)[i])
    requires id in Remote(s) && id !in LocalIds(file)
    ensures id in LocalIds(Contents(SyncMailbox(s, Open(file)).archive))
  {
    var r := SyncMailbox(s, Open(file));
    FlushedFile(s, file);
    FetchedIdentities(s, file);
    FetchedBodyId(s, Listed(s), LocalIds(file), r.fetched, id);
    LocalIdsConcat(Survivors(file, Remote(s), |file|), Bodies(s, r.fetched));
  }

  /** A remote identity that was not known is carried by one of the fetched bodies,
      when each body carries the identity its header showed. */
  lemma FetchedBodyId(s: Session, refs: seq<Ref>, known: set<Identity>, f: seq<Ref>, id: Identity)
    requires FetchesFor(s, refs, known, f)
    requires forall i :: 0 <= i < |refs| ==> s.body(refs[i]).data.messageId == IdOf(s, refs[i])
    requires id in RemoteIds(s, refs) && id !in known
    ensures id in LocalIds(Bodies(s, f))
  {
    var i :| 0 <= i < |f| && IdOf(s, f[i]) == id;
    var q :| 0 <= q < |refs| && refs[q] == f[i];
    LocalIdOf(Bodies(s, f), Bodies(s, f)[i]);
  }

  lemma LocalIdOf(file: File, m: Message)
    requires m in file
    ensures m.messageId in LocalIds(file)
  {
    var j :| 0 <= j < |file| && file[j] == m;
  }

  lemma LocalIdsConcat(a: File, b: File)
    ensures LocalIds(a + b) == LocalIds(a) + LocalIds(b)
  {
    forall id | id in LocalIds(a + b) ensures id in LocalIds(a) + LocalIds(b) {
      var j :| 0 <= j < |a + b| && (a + b)[j].messageId == id;
      if j < |a| {
        LocalIdOf(a, a[j]);
      } else {
        LocalIdOf(b, b[j - |a|]);
      }
    }
    forall id | id in LocalIds(a) + LocalIds(b) ensures id in LocalIds(a + b) {
      if id in LocalIds(a) {
        var j :| 0 <= j < |a| && a[j].messageId == id;
        LocalIdOf(a + b, (a + b)[j]);
      } else {
        var j :| 0 <= j < |b| && b[j].messageId == id;
        LocalIdOf(a + b, (a + b)[|a| + j]);
      }
    }
  }

  /** Idempotence of the reconciliation: running a second pass against the same
      folder over the file the first pass flushed fetches nothing, provided each
      fetched message carries the Message-Id its header reply showed. */
  lemma SecondPassFetchesNothing(s: Session, file: File)
    requires SyncMailbox(s, Open(file)).Synced?
    requires forall i :: 0 <= i < |Listed(s)| ==> s.body(Listed(s)[i]).data.messageId == IdOf(s, Listed(s)[i])
    requires SyncMailbox(s, Open(Contents(SyncMailbox(s, Open(file)).archive))).Synced?
    ensures SyncMailbox(s, Open(Contents(SyncMailbox(s, Open(file)).archive))).fetched == []
  {
    var file2 := Contents(SyncMailbox(s, Open(file)).archive);
    RemoteCoveredAfterSync(s, file);
    FetchedIdentities(s, file2);
    NothingToFetch(s, Listed(s), LocalIds(file2), SyncMailbox(s, Open(file2)).fetched);
  }

  /** When every listed identity is known there is nothing to fetch. */
  lemma NothingToFetch(s: Session, refs: seq<Ref>, known: set<Identity>, f: seq<Ref>)
    requires FetchesFor(s, refs, known, f)
    requires RemoteIds(s, refs) <= known
    ensures f == []
  {
    RemoteIdsMembers(s, refs);
    assert |f| > 0 ==> f[0] in refs && IdOf(s, f[0]) !in known;
  }
}
