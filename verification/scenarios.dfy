/** Concrete boards and token lists, worked through the model. */
module Scenarios {
  import opened Seqs
  import opened Resolver
  import opened Cards
  import opened Text

  /** A board with a red "Bug" label and a green "Feature" label. */
  function Board(): seq<Label> {
    [Label("L1", "Bug", "red"), Label("L2", "Feature", "green")]
  }

  /** The id token resolves to itself. */
  lemma IdTokenResolves()
    ensures ResolveToken(Board(), "L2") == Some("L2")
  {
  }

  /** The ids of a name token followed by an id token, in token order. */
  lemma NameAndIdIds()
    ensures ResolveAll(Board(), ["bug", "L2"]) == ["L1", "L2"]
  {
    CasingsAgree();
    IdTokenResolves();
    ResolveAllPair(Board(), "bug", "L2", "L1", "L2");
  }

  /** A name token and an id token resolve in token order. */
  lemma NameAndIdInOrder()
    ensures Resolve(Board(), ["bug", "L2"]) == Resolved(["L1", "L2"])
  {
    NameAndIdIds();
  }

  /** Every casing of the name resolves to the same label. */
  lemma CasingsAgree()
    ensures ResolveToken(Board(), "bug") == Some("L1")
    ensures ResolveToken(Board(), "Bug") == Some("L1")
    ensures ResolveToken(Board(), "BUG") == Some("L1")
  {
  }

  /** A token that matches nothing on a non-empty board aborts. */
  lemma UnknownTokenAborts()
    ensures Resolve(Board(), ["nonexistent"]) == Abort
    ensures CreateCardRequest(Credential("k", "t"), Board(), "list", "card", None, ["nonexistent"]) == Exit
  {
    assert ResolveToken(Board(), "nonexistent") == None;
  }

  /** An empty snapshot (failed fetch or no labels) returns nothing and does
      not abort; the card is still requested, without labels. */
  lemma EmptySnapshotDoesNotAbort()
    ensures Resolve([], ["bug"]) == Resolved([])
    ensures CreateCardRequest(Credential("k", "t"), [], "list", "card", None, ["bug"]) ==
      Post(CardRequest("k", "t", "list", "card", "", None))
  {
  }

  /** A token that is one label's id and another label's name picks the id. */
  lemma IdBeatsNameExample()
    ensures ResolveToken([Label("x", "y", ""), Label("y", "z", "")], "y") == Some("y")
  {
  }

  /** The first name match decides even when its id is empty: the token is
      then dropped, although a later label with the same name has an id. */
  lemma EmptyIdDropsToken()
    ensures ResolveToken([Label("", "Bug", ""), Label("L9", "bug", "")], "BUG") == None
    ensures Resolve([Label("", "Bug", ""), Label("L9", "bug", "")], ["BUG"]) == Abort
  {
    var labels := [Label("", "Bug", ""), Label("L9", "bug", "")];
    assert FirstNameMatchAt(labels, "BUG", 0);
    ResolveTokenSpec(labels, "BUG");
  }

  /** Duplicates are kept: a repeated label comes out twice. */
  lemma DuplicateIds()
    ensures ResolveAll(Board(), ["bug", "L2", "BUG"]) == ["L1", "L2", "L1"]
  {
    CasingsAgree();
    NameAndIdIds();
    ResolveAllSnoc(Board(), ["bug", "L2"], "BUG", "L1");
    assert ["bug", "L2"] + ["BUG"] == ["bug", "L2", "BUG"];
  }

  /** The comma-joined field of the duplicated ids. */
  lemma DuplicateField()
    ensures IdLabelsField(["L1", "L2", "L1"]) == "L1,L2,L1"
  {
    var ids := ["L1", "L2", "L1"];
    assert ids[1..] == ["L2", "L1"] && ids[1..][1..] == ["L1"];
    assert Join(ids[1..], ',') == "L2,L1";
  }

  /** Duplicates survive into the `idLabels` field. */
  lemma DuplicatesInRequest()
    ensures CreateCardRequest(Credential("k", "t"), Board(), "list", "card", Some(""), ["bug", "L2", "BUG"]) ==
      Post(CardRequest("k", "t", "list", "card", "L1,L2,L1", None))
  {
    DuplicateIds();
    DuplicateField();
  }
}
