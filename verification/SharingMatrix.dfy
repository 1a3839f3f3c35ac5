/** The per-observation sharing matrix `SharedBy`: one `{st, sh}` entry per jurisdiction,
    decoded (the JSON text form is not modelled). */
module SharingMatrix {
  import opened Wrappers

  /** One `{"st": jurisdiction, "sh": shared}` element of `SharedBy`. */
  datatype ShareEntry = ShareEntry(st: string, sh: bool)

  /** A record of the jurisdiction settings table; only its `Jurisdiction` column is read here. */
  datatype JurisSettings = JurisSettings(jurisdiction: string)

  /** The first loop of the `beforeSave` trigger: the jurisdictions, in registry order. */
  function Jurisdictions(settings: seq<JurisSettings>): (codes: seq<string>)
    ensures |codes| == |settings|
    ensures forall i :: 0 <= i < |settings| ==> codes[i] == settings[i].jurisdiction
  {
    if |settings| == 0 then []
    else Jurisdictions(settings[..|settings| - 1]) + [settings[|settings| - 1].jurisdiction]
  }

  /** The second loop of the `beforeSave` trigger: every jurisdiction shared with. */
  function SharedWithAll(codes: seq<string>): (sharedBy: seq<ShareEntry>)
    ensures |sharedBy| == |codes|
    ensures forall i :: 0 <= i < |codes| ==> sharedBy[i].st == codes[i] && sharedBy[i].sh
  {
    if |codes| == 0 then []
    else SharedWithAll(codes[..|codes| - 1]) + [ShareEntry(codes[|codes| - 1], true)]
  }

  /** The `SharedBy` list a new observation receives before it is first saved:
      one entry per settings record, in order, each shared. */
  function InitSharedBy(settings: seq<JurisSettings>): (sharedBy: seq<ShareEntry>)
    ensures |sharedBy| == |settings|
    ensures forall i :: 0 <= i < |settings| ==> sharedBy[i] == ShareEntry(settings[i].jurisdiction, true)
  {
    SharedWithAll(Jurisdictions(settings))
  }

  /** The flag of the FIRST entry whose `st` equals `state`; `None` when there is none.
      This is the inner loop of `getPrevSimpleObsSharedInfoForState`, which stops at `break`. */
  function FirstMatch(sharedBy: seq<ShareEntry>, state: string): (r: Option<bool>)
    ensures r.None? <==> forall i :: 0 <= i < |sharedBy| ==> sharedBy[i].st != state
    ensures r.Some? ==> exists i :: 0 <= i < |sharedBy| && sharedBy[i].st == state && sharedBy[i].sh == r.value
                                    && forall k :: 0 <= k < i ==> sharedBy[k].st != state
  {
    if |sharedBy| == 0 then None
    else if sharedBy[0].st == state then Some(sharedBy[0].sh)
    else FirstMatch(sharedBy[1..], state)
  }

  /** Whatever entries follow, the first matching entry decides. */
  lemma FirstMatchIsFirst(sharedBy: seq<ShareEntry>, state: string, i: int)
    requires 0 <= i < |sharedBy| && sharedBy[i].st == state
    requires forall k :: 0 <= k < i ==> sharedBy[k].st != state
    ensures FirstMatch(sharedBy, state) == Some(sharedBy[i].sh)
  {
  }

  /** A freshly initialised matrix shares with exactly the registered jurisdictions. */
  lemma InitSharedByLookup(settings: seq<JurisSettings>, state: string)
    ensures FirstMatch(InitSharedBy(settings), state)
            == if state in Jurisdictions(settings) then Some(true) else None
  {
    var sharedBy := InitSharedBy(settings);
    var codes := Jurisdictions(settings);
    if state in codes {
      var i :| 0 <= i < |codes| && codes[i] == state;
      assert sharedBy[i].st == state;
    }
  }
}
