/** What the add phase of the reconciliation does, over the whole remote list:
    the records it appends, the index it leaves, what it fetches and when it stops. */
module SyncAdd {
  import opened Base
  import opened Archive
  import opened Sync

  /** The live records that fetching `refs` in order appends. */
  function Appended(s: Session, refs: seq<Ref>): (r: seq<Entry>)
    ensures |r| == |refs|
    ensures forall i :: 0 <= i < |refs| ==> r[i] == Entry(s.body(refs[i]).data, true)
  {
    seq(|refs|, i requires 0 <= i < |refs| => Entry(s.body(refs[i]).data, true))
  }

  /** The archive after the add phase is the archive before it followed by the
      fetched messages, one live record per fetched reference, in fetch order. */
  lemma {:induction false} AddedRecords(s: Session, refs: seq<Ref>, box: Mbox, idx: Index)
    requires AddMissing(s, refs, box, idx).Added?
    ensures var p := AddMissing(s, refs, box, idx).pass;
      p.archive.entries == box.entries + Appended(s, p.fetched)
    decreases |refs|
  {
    if |refs| > 0 {
      AddedCons(s, refs, box, idx);
      var p := Step(s, refs[0], box, idx).pass;
      StepRecords(s, refs[0], box, idx);
      var q := AddMissing(s, refs[1..], p.archive, p.index).pass;
      AddedRecords(s, refs[1..], p.archive, p.index);
      AppendedTrans(s, box.entries, p.archive.entries, q.archive.entries, p.fetched, q.fetched);
    } else {
      assert box.entries + Appended(s, []) == box.entries;
    }
  }

  /** The add phase over a non-empty list is its first step followed by the add
      phase over the rest, starting from where the step left off. */
  lemma AddedCons(s: Session, refs: seq<Ref>, box: Mbox, idx: Index)
    requires |refs| > 0
    requires AddMissing(s, refs, box, idx).Added?
    ensures Step(s, refs[0], box, idx).Added?
    ensures var p := Step(s, refs[0], box, idx).pass;
      && AddMissing(s, refs[1..], p.archive, p.index).Added?
      && var q := AddMissing(s, refs[1..], p.archive, p.index).pass;
         AddMissing(s, refs, box, idx).pass == q.(fetched := p.fetched + q.fetched)
  {
  }

  /** Appending the records of `a` and then those of `b` appends those of `a + b`. */
  lemma AppendedTrans(s: Session, e0: seq<Entry>, e1: seq<Entry>, e2: seq<Entry>, a: seq<Ref>, b: seq<Ref>)
    requires e1 == e0 + Appended(s, a) && e2 == e1 + Appended(s, b)
    ensures e2 == e0 + Appended(s, a + b)
  {
    assert Appended(s, a + b) == Appended(s, a) + Appended(s, b);
  }

  /** One step appends at most one record, the fetched one. */
  lemma StepRecords(s: Session, ref: Ref, box: Mbox, idx: Index)
    requires Step(s, ref, box, idx).Added?
    ensures var p := Step(s, ref, box, idx).pass;
      p.archive.entries == box.entries + Appended(s, p.fetched)
  {
    var p := Step(s, ref, box, idx).pass;
    if p.fetched == [] {
      assert box.entries + Appended(s, []) == box.entries;
    }
  }

  /** One step keeps the index in agreement with the archive. */
  lemma StepTracks(s: Session, ref: Ref, box: Mbox, idx: Index)
    requires Tracks(box, idx)
    requires Step(s, ref, box, idx).Added?
    ensures var p := Step(s, ref, box, idx).pass; Tracks(p.archive, p.index)
  {
  }

  /** `out` is `idx` grown by the identities `ids`: it holds exactly the old and the
      new identities; an entry is confirmed exactly when its identity is in `ids` or
      was confirmed before; old entries keep their record; and new entries name
      records at or after `n`. */
  ghost predicate Grows(idx: Index, n: nat, ids: set<Identity>, out: Index) {
    && out.Keys == idx.Keys + ids
    && (forall id :: id in out ==>
          (out[id].existsInImap <==> id in ids || (id in idx && idx[id].existsInImap)))
    && (forall id :: id in idx ==> out[id].mboxId == idx[id].mboxId)
    && (forall id :: id in out && id !in idx ==> n <= out[id].mboxId)
  }

  /** The index after the add phase grows the index before it by every remote
      identity, with new entries naming appended records, and still agrees with
      the archive. */
  lemma {:induction false} AddedIndex(s: Session, refs: seq<Ref>, box: Mbox, idx: Index)
    requires AddMissing(s, refs, box, idx).Added?
    ensures var p := AddMissing(s, refs, box, idx).pass;
      && Grows(idx, |box.entries|, RemoteIds(s, refs), p.index)
      && (Tracks(box, idx) ==> Tracks(p.archive, p.index))
    decreases |refs|
  {
    if |refs| > 0 {
      AddedCons(s, refs, box, idx);
      var p := Step(s, refs[0], box, idx).pass;
      AddedIndex(s, refs[1..], p.archive, p.index);
      var q := AddMissing(s, refs[1..], p.archive, p.index).pass;
      StepGrows(s, refs[0], box, idx);
      GrowsTrans(idx, |box.entries|, {IdOf(s, refs[0])}, p.index, |p.archive.entries|, RemoteIds(s, refs[1..]), q.index);
      if Tracks(box, idx) {
        StepTracks(s, refs[0], box, idx);
      }
    }
  }

  /** One step grows the index by the identity of its reference. */
  lemma StepGrows(s: Session, ref: Ref, box: Mbox, idx: Index)
    requires Step(s, ref, box, idx).Added?
    ensures var p := Step(s, ref, box, idx).pass;
      && Grows(idx, |box.entries|, {IdOf(s, ref)}, p.index)
      && |box.entries| <= |p.archive.entries|
  {
  }

  /** Growing by `a` and then by `b` is growing by both. */
  lemma GrowsTrans(idx: Index, n: nat, a: set<Identity>, mid: Index, m: nat, b: set<Identity>, out: Index)
    requires Grows(idx, n, a, mid) && n <= m
    requires forall id :: id in mid && id !in idx ==> m <= mid[id].mboxId || id in a
    requires Grows(mid, m, b, out)
    requires forall id :: id in a ==> mid[id].existsInImap
    ensures Grows(idx, n, a + b, out)
  {
  }

  /** `f` is what fetching `refs` against the identities `known` should fetch: only
      listed references whose identity is not known, no identity twice, and every
      listed identity that is not known. */
  ghost predicate FetchesFor(s: Session, refs: seq<Ref>, known: set<Identity>, f: seq<Ref>) {
    && (forall i :: 0 <= i < |f| ==> f[i] in refs && IdOf(s, f[i]) !in known)
    && (forall i, j :: 0 <= i < j < |f| ==> IdOf(s, f[i]) != IdOf(s, f[j]))
    && (forall id :: id in RemoteIds(s, refs) && id !in known ==>
          exists i :: 0 <= i < |f| && IdOf(s, f[i]) == id)
  }

  /** The full-content fetches of the add phase: each fetched reference is listed,
      its identity was not indexed, no identity is fetched twice, and every remote
      identity that was not indexed is fetched once. */
  lemma {:induction false} AddedFetches(s: Session, refs: seq<Ref>, box: Mbox, idx: Index)
    requires AddMissing(s, refs, box, idx).Added?
    ensures FetchesFor(s, refs, idx.Keys, AddMissing(s, refs, box, idx).pass.fetched)
    decreases |refs|
  {
    if |refs| > 0 {
      AddedCons(s, refs, box, idx);
      var p := Step(s, refs[0], box, idx).pass;
      StepFetches(s, refs[0], box, idx);
      var q := AddMissing(s, refs[1..], p.archive, p.index).pass;
      AddedFetches(s, refs[1..], p.archive, p.index);
      CombineFetches(s, refs, idx.Keys, p.fetched, q.fetched);
    }
  }

  /** The fetches of a first step followed by those of the rest are the fetches
      for the whole list. */
  lemma CombineFetches(s: Session, refs: seq<Ref>, known: set<Identity>, pf: seq<Ref>, qf: seq<Ref>)
    requires |refs| > 0
    requires (pf == [] && IdOf(s, refs[0]) in known) || (pf == [refs[0]] && IdOf(s, refs[0]) !in known)
    requires FetchesFor(s, refs[1..], known + {IdOf(s, refs[0])}, qf)
    ensures FetchesFor(s, refs, known, pf + qf)
  {
    var ref, rest := refs[0], refs[1..];
    assert refs == [ref] + rest;
    CombineListed(s, ref, rest, known, pf, qf);
    CombineDistinct(s, ref, rest, known, pf, qf);
    CombineComplete(s, ref, rest, known, pf, qf);
  }

  lemma CombineListed(s: Session, ref: Ref, rest: seq<Ref>, known: set<Identity>, pf: seq<Ref>, qf: seq<Ref>)
    requires (pf == [] && IdOf(s, ref) in known) || (pf == [ref] && IdOf(s, ref) !in known)
    requires forall i :: 0 <= i < |qf| ==> qf[i] in rest && IdOf(s, qf[i]) !in known + {IdOf(s, ref)}
    ensures forall i :: 0 <= i < |pf + qf| ==> (pf + qf)[i] in [ref] + rest && IdOf(s, (pf + qf)[i]) !in known
  {
    var f := pf + qf;
    forall i | 0 <= i < |f| ensures f[i] in [ref] + rest && IdOf(s, f[i]) !in known {
      if i >= |pf| {
        assert f[i] == qf[i - |pf|];
      }
    }
  }

  lemma CombineDistinct(s: Session, ref: Ref, rest: seq<Ref>, known: set<Identity>, pf: seq<Ref>, qf: seq<Ref>)
    requires pf == [] || pf == [ref]
    requires forall i :: 0 <= i < |qf| ==> IdOf(s, qf[i]) != IdOf(s, ref)
    requires forall i, j :: 0 <= i < j < |qf| ==> IdOf(s, qf[i]) != IdOf(s, qf[j])
    ensures forall i, j :: 0 <= i < j < |pf + qf| ==> IdOf(s, (pf + qf)[i]) != IdOf(s, (pf + qf)[j])
  {
    var f := pf + qf;
    var d := |pf|;
    forall i, j | 0 <= i < j < |f| ensures IdOf(s, f[i]) != IdOf(s, f[j]) {
      assert f[j] == qf[j - d];
      if i >= d {
        assert f[i] == qf[i - d];
      }
    }
  }

  lemma CombineComplete(s: Session, ref: Ref, rest: seq<Ref>, known: set<Identity>, pf: seq<Ref>, qf: seq<Ref>)
    requires (pf == [] && IdOf(s, ref) in known) || (pf == [ref] && IdOf(s, ref) !in known)
    requires forall id :: id in RemoteIds(s, rest) && id !in known + {IdOf(s, ref)} ==>
               exists i :: 0 <= i < |qf| && IdOf(s, qf[i]) == id
    ensures forall id :: id in RemoteIds(s, [ref] + rest) && id !in known ==>
              exists i :: 0 <= i < |pf + qf| && IdOf(s, (pf + qf)[i]) == id
  {
    var f := pf + qf;
    var d := |pf|;
    assert ([ref] + rest)[1..] == rest;
    forall id | id in RemoteIds(s, [ref] + rest) && id !in known
      ensures exists i :: 0 <= i < |f| && IdOf(s, f[i]) == id
    {
      if id == IdOf(s, ref) {
        assert IdOf(s, f[0]) == id;
      } else {
        assert id in RemoteIds(s, rest) && id !in known + {IdOf(s, ref)};
        var i :| 0 <= i < |qf| && IdOf(s, qf[i]) == id;
        assert f[d + i] == qf[i];
      }
    }
  }

  /** One step fetches the reference exactly when its identity is not indexed, and
      then indexes it. */
  lemma StepFetches(s: Session, ref: Ref, box: Mbox, idx: Index)
    requires Step(s, ref, box, idx).Added?
    ensures var p := Step(s, ref, box, idx).pass;
      && (p.fetched == [] || (p.fetched == [ref] && IdOf(s, ref) !in idx))
      && (IdOf(s, ref) !in idx ==> p.fetched == [ref])
      && p.index.Keys == idx.Keys + {IdOf(s, ref)}
  {
  }

  /** The add phase stops only at a reference whose header fetch or full fetch
      failed. */
  lemma {:induction false} HaltCause(s: Session, refs: seq<Ref>, box: Mbox, idx: Index)
    requires AddMissing(s, refs, box, idx).Halted?
    ensures exists k :: 0 <= k < |refs| && (s.header(refs[k]).status != OK || s.body(refs[k]).status != OK)
    decreases |refs|
  {
    if Step(s, refs[0], box, idx).Added? {
      var p := Step(s, refs[0], box, idx).pass;
      HaltCause(s, refs[1..], p.archive, p.index);
      var k :| 0 <= k < |refs[1..]| && (s.header(refs[1..][k]).status != OK || s.body(refs[1..][k]).status != OK);
      assert refs[1..][k] == refs[k + 1];
    }
  }

  /** When every listed message can be fetched, the add phase completes. */
  lemma AllFetchesSucceed(s: Session, refs: seq<Ref>, box: Mbox, idx: Index)
    requires forall k :: 0 <= k < |refs| ==> s.header(refs[k]).status == OK && s.body(refs[k]).status == OK
    ensures AddMissing(s, refs, box, idx).Added?
  {
    if AddMissing(s, refs, box, idx).Halted? {
      HaltCause(s, refs, box, idx);
    }
  }

  /** When every listed identity is already indexed, the add phase fetches nothing
      and appends nothing: it only confirms. */
  lemma NothingNewNothingFetched(s: Session, refs: seq<Ref>, box: Mbox, idx: Index)
    requires AddMissing(s, refs, box, idx).Added?
    requires RemoteIds(s, refs) <= idx.Keys
    ensures AddMissing(s, refs, box, idx).pass.fetched == []
    ensures AddMissing(s, refs, box, idx).pass.archive == box
  {
    var p := AddMissing(s, refs, box, idx).pass;
    AddedFetches(s, refs, box, idx);
    AddedRecords(s, refs, box, idx);
    RemoteIdsMembers(s, refs);
    assert box.entries + Appended(s, []) == box.entries;
  }
}
