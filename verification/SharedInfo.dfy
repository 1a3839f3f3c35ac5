/** `getPrevSimpleObsSharedInfoForState`: for a requesting state, one record per current,
    non-stale observation whose `SharedBy` lists that state, carrying the state's flag.
    The store query is replaced by the list of candidates it returned. */
module SharedInfo {
  import opened Wrappers
  import opened SharingMatrix
  import opened Staleness

  /** The columns of an observation that the operation reads. `sharedBy` is `None` when the
      record has no `SharedBy` column. */
  datatype Observation = Observation(
    id: string,
    remoteLocationId: string,
    locationName: string,
    locationStatus: string,
    districtNo: int,
    lat: real,
    lng: real,
    bestCuring: real,
    bestDate: int,
    finalisedDate: int,
    sharedBy: Option<seq<ShareEntry>>)

  /** One element of the `sharedInfos` array returned to the caller. */
  datatype SharedInfoRecord = SharedInfoRecord(
    obsObjId: string,
    locObjId: string,
    locName: string,
    locStatus: string,
    distNo: int,
    isSharedByState: bool,
    prevOpsCuring: real,
    prevOpsDate: int,
    lat: real,
    lng: real,
    finalisedDate: int)

  /** Every field of the record except the flag is the observation's own value. */
  predicate CopiedFrom(info: SharedInfoRecord, o: Observation) {
    && info.obsObjId == o.id
    && info.locObjId == o.remoteLocationId
    && info.locName == o.locationName
    && info.locStatus == o.locationStatus
    && info.distNo == o.districtNo
    && info.prevOpsCuring == o.bestCuring
    && info.prevOpsDate == o.bestDate
    && info.lat == o.lat
    && info.lng == o.lng
    && info.finalisedDate == o.finalisedDate
  }

  /** The state appears somewhere in the observation's `SharedBy` list. */
  predicate ListsState(o: Observation, state: string) {
    o.sharedBy.Some? && exists i :: 0 <= i < |o.sharedBy.value| && o.sharedBy.value[i].st == state
  }

  /** What one iteration of the outer loop emits for observation `o`. */
  function SharedInfoFor(o: Observation, state: string, now: int): (r: Option<SharedInfoRecord>)
    ensures r.Some? <==> !IsObsTooOld(o.finalisedDate, now) && ListsState(o, state)
    ensures r.Some? ==> CopiedFrom(r.value, o)
    ensures r.Some? ==> exists i :: 0 <= i < |o.sharedBy.value|
                                    && o.sharedBy.value[i].st == state
                                    && r.value.isSharedByState == o.sharedBy.value[i].sh
                                    && forall k :: 0 <= k < i ==> o.sharedBy.value[k].st != state
  {
    if IsObsTooOld(o.finalisedDate, now) || o.sharedBy.None? then None
    else
      match FirstMatch(o.sharedBy.value, state)
      case None => None
      case Some(shared) =>
        Some(SharedInfoRecord(o.id, o.remoteLocationId, o.locationName, o.locationStatus, o.districtNo,
                              shared, o.bestCuring, o.bestDate, o.lat, o.lng, o.finalisedDate))
  }

  /** The records for a list of candidates: each observation's record, in input order. */
  function CollectSharedInfos(obs: seq<Observation>, state: string, now: int): (infos: seq<SharedInfoRecord>)
    ensures |infos| <= |obs|
  {
    if |obs| == 0 then []
    else
      var front := CollectSharedInfos(obs[..|obs| - 1], state, now);
      match SharedInfoFor(obs[|obs| - 1], state, now)
      case None => front
      case Some(info) => front + [info]
  }

  /** Output order follows input order: the records of a concatenation are the records
      of each part, one after the other. */
  lemma {:induction false} CollectAppend(a: seq<Observation>, b: seq<Observation>, state: string, now: int)
    ensures CollectSharedInfos(a + b, state, now)
            == CollectSharedInfos(a, state, now) + CollectSharedInfos(b, state, now)
    decreases |b|
  {
    if |b| == 0 {
      assert a + b == a;
    } else {
      var b' := b[..|b| - 1];
      assert (a + b)[..|a + b| - 1] == a + b';
      assert (a + b)[|a + b| - 1] == b[|b| - 1];
      CollectAppend(a, b', state, now);
    }
  }

  /** A single observation yields at most one record, namely `SharedInfoFor`'s. */
  lemma CollectOne(o: Observation, state: string, now: int)
    ensures CollectSharedInfos([o], state, now)
            == if SharedInfoFor(o, state, now).Some? then [SharedInfoFor(o, state, now).value] else []
  {
    assert [o][..0] == [];
  }

  /** A record is returned exactly when some candidate produces it. */
  lemma {:induction false} CollectMembership(obs: seq<Observation>, state: string, now: int, info: SharedInfoRecord)
    ensures info in CollectSharedInfos(obs, state, now)
            <==> exists j :: 0 <= j < |obs| && SharedInfoFor(obs[j], state, now) == Some(info)
  {
    if |obs| > 0 {
      var front := obs[..|obs| - 1];
      CollectMembership(front, state, now, info);
      assert forall j :: 0 <= j < |front| ==> front[j] == obs[j];
    }
  }

  /** The loop of `getPrevSimpleObsSharedInfoForState` over the fetched observations, with its
      inner search of `SharedBy` stopping at the first entry for `state`. */
  method GetPrevSimpleObsSharedInfoForState(obs: seq<Observation>, state: string, now: int)
    returns (sharedInfos: seq<SharedInfoRecord>)
    ensures sharedInfos == CollectSharedInfos(obs, state, now)
    ensures |sharedInfos| <= |obs|
    ensures forall info :: info in sharedInfos
              <==> exists j :: 0 <= j < |obs| && SharedInfoFor(obs[j], state, now) == Some(info)
  {
    sharedInfos := [];
    for j := 0 to |obs|
      invariant sharedInfos == CollectSharedInfos(obs[..j], state, now)
    {
      assert obs[..j + 1][..j] == obs[..j];
      var o := obs[j];
      if !IsObsTooOld(o.finalisedDate, now) && o.sharedBy.Some? {
        var sharedByInfo := o.sharedBy.value;
        for p := 0 to |sharedByInfo|
          invariant forall k :: 0 <= k < p ==> sharedByInfo[k].st != state
          invariant sharedInfos == CollectSharedInfos(obs[..j], state, now)
        {
          if sharedByInfo[p].st == state {
            var isSharedByState := sharedByInfo[p].sh;
            FirstMatchIsFirst(sharedByInfo, state, p);
            sharedInfos := sharedInfos + [SharedInfoRecord(o.id, o.remoteLocationId, o.locationName,
                                                           o.locationStatus, o.districtNo, isSharedByState,
                                                           o.bestCuring, o.bestDate, o.lat, o.lng,
                                                           o.finalisedDate)];
            break;
          }
        }
      }
    }
    assert obs[..|obs|] == obs;
    forall info {
      CollectMembership(obs, state, now, info);
    }
  }
}
