/** The request `TrelloCardCLI.create_card` builds for the card-creation
    POST: the credential, the target list, the card name, the `idLabels`
    field made from the resolved label ids, and the optional description.
    Sending the request, and the comment that may follow it, are network
    I/O and not part of this model. */
module Cards {
  import opened Seqs
  import opened Text
  import opened Resolver

  /** The API key and token sent with every request. */
  datatype Credential = Credential(apiKey: string, token: string)

  /** The form fields of the card-creation POST. `desc` is None when the
      field is left out of the form. */
  datatype CardRequest = CardRequest(
    key: string,
    token: string,
    idList: string,
    name: string,
    idLabels: string,
    desc: Option<string>)

  /** What create_card does before any network call: either it has a request
      to post, or resolution aborted the process (exit status 1) and no card
      is created. */
  datatype CardOutcome = Post(request: CardRequest) | Exit

  /** Every label id of the snapshot is free of commas, so the comma-joined
      field can be split back into ids. */
  ghost predicate CommaFreeIds(labels: seq<Label>) {
    forall i :: 0 <= i < |labels| ==> ',' !in labels[i].id
  }

  /** The `idLabels` form field: the comma-joined ids, or the empty string
      when there are none. */
  function IdLabelsField(ids: seq<string>): (field: string)
    ensures |ids| == 0 ==> field == ""
    ensures |ids| > 0 && ids[0] != "" ==> field != ""
    ensures |ids| > 0 ==> |ids[0]| <= |field| && field[..|ids[0]|] == ids[0]
  {
    if |ids| > 0 then Join(ids, ',') else ""
  }

  /** The field splits back into the ids it was made of. */
  lemma IdLabelsRoundTrip(ids: seq<string>)
    requires |ids| > 0
    requires forall k :: 0 <= k < |ids| ==> ',' !in ids[k]
    ensures Split(IdLabelsField(ids), ',') == ids
  {
    SplitJoin(ids, ',');
  }

  /** Resolution runs only when label tokens are given (an absent `--labels`
      and an empty list are both falsy); otherwise no ids are attached. */
  function CardLabels(snapshot: seq<Label>, labels: seq<string>): (r: Resolution)
    ensures |labels| == 0 ==> r == Resolved([])
    ensures r.Abort? ==> |labels| > 0 && |snapshot| > 0
    ensures r.Resolved? ==> |r.ids| <= |labels|
    ensures r.Resolved? && |labels| > 0 && |snapshot| > 0 ==> |r.ids| > 0
  {
    if |labels| > 0 then Resolve(snapshot, labels) else Resolved([])
  }

  /** The request create_card would post, or the abort. `snapshot` is what
      the label fetch returned (empty for a failed fetch); it is consulted
      only when label tokens are given. */
  function CreateCardRequest(
    cred: Credential,
    snapshot: seq<Label>,
    listId: string,
    name: string,
    description: Option<string>,
    labels: seq<string>): (r: CardOutcome)
    // Only a resolution over given tokens and a non-empty snapshot can
    // stop the card from being created.
    ensures r.Exit? ==> |labels| > 0 && |snapshot| > 0
    // The fixed fields carry the caller's values.
    ensures r.Post? ==>
      && r.request.key == cred.apiKey
      && r.request.token == cred.token
      && r.request.idList == listId
      && r.request.name == name
    // The description is sent only when it is given and non-empty.
    ensures r.Post? ==>
      (r.request.desc.Some? <==> description.Some? && description.value != "")
    ensures r.Post? && r.request.desc.Some? ==> r.request.desc == description
    // No labels are attached exactly when none were asked for or the
    // snapshot was empty.
    ensures r.Post? ==>
      (r.request.idLabels == "" <==> |labels| == 0 || |snapshot| == 0)
  {
    match CardLabels(snapshot, labels)
    case Abort => Exit
    case Resolved(ids) =>
      var desc := if description.Some? && description.value != "" then description else None;
      Post(CardRequest(cred.apiKey, cred.token, listId, name, IdLabelsField(ids), desc))
  }

  /** No card is requested exactly when tokens were given, the snapshot is
      non-empty and none of the tokens matched. */
  lemma ExitIffNothingMatched(
    cred: Credential, snapshot: seq<Label>, listId: string, name: string,
    description: Option<string>, labels: seq<string>)
    ensures CreateCardRequest(cred, snapshot, listId, name, description, labels).Exit? <==>
      |labels| > 0 && |snapshot| > 0 &&
      forall t :: 0 <= t < |labels| ==> ResolveToken(snapshot, labels[t]).None?
  {
    if |labels| > 0 && |snapshot| > 0 {
      AbortIffNothingMatched(snapshot, labels);
    }
  }

  /** When labels were attached, the `idLabels` field lists the resolved ids,
      in token order and with duplicates, provided no label id contains a
      comma. */
  lemma IdLabelsListsResolvedIds(
    cred: Credential, snapshot: seq<Label>, listId: string, name: string,
    description: Option<string>, labels: seq<string>)
    requires CommaFreeIds(snapshot)
    ensures var r := CreateCardRequest(cred, snapshot, listId, name, description, labels);
      r.Post? && r.request.idLabels != "" ==>
        Split(r.request.idLabels, ',') == ResolveAll(snapshot, labels)
  {
    var r := CreateCardRequest(cred, snapshot, listId, name, description, labels);
    if r.Post? && r.request.idLabels != "" {
      var ids := ResolveAll(snapshot, labels);
      forall k | 0 <= k < |ids|
        ensures ',' !in ids[k]
      {
        var i :| 0 <= i < |snapshot| && snapshot[i].id == ids[k];
      }
      IdLabelsRoundTrip(ids);
    }
  }

  /** Without label tokens the label snapshot plays no part: the request is
      the same whatever the fetch would have returned, with an empty
      `idLabels`. */
  lemma NoTokensNoLookup(
    cred: Credential, s1: seq<Label>, s2: seq<Label>,
    listId: string, name: string, description: Option<string>)
    ensures CreateCardRequest(cred, s1, listId, name, description, []) ==
            CreateCardRequest(cred, s2, listId, name, description, [])
    ensures CreateCardRequest(cred, s1, listId, name, description, []).Post?
    ensures CreateCardRequest(cred, s1, listId, name, description, []).request.idLabels == ""
  {
  }
}
