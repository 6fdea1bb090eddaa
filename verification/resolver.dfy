/** The label resolver of the command-line client: it maps user label tokens
    (label ids or case-insensitive label names) onto the ids of one board's
    labels, as `TrelloCardCLI.resolve_label_ids` in trello_main.py does.

    The board's labels are one fetched snapshot, passed in as a sequence in
    the order the service listed them. An empty snapshot stands both for a
    failed fetch (`None`) and for a board without labels: the source cannot
    tell them apart either. */
module Resolver {
  import opened Seqs
  import opened Text

  /** A board label as the service returns it. The name and the colour may
      be empty strings. */
  datatype Label = Label(id: string, name: string, color: string)

  /** Outcome of resolving: the resolved ids, or the abort that prints the
      board's labels and ends the process with exit status 1. */
  datatype Resolution = Resolved(ids: seq<string>) | Abort

  /** Python truthiness of a `next(..., None)` result: None and the empty
      string both count as "no match". */
  function Truthy(m: Option<string>): (b: bool)
    ensures b <==> m != None && m != Some("")
  {
    m.Some? && m.value != ""
  }

  /** `next((label['id'] for label in labels if p(label)), None)`. */
  function NextId(labels: seq<Label>, p: Label -> bool): (r: Option<string>)
    ensures r.Some? ==> exists i :: 0 <= i < |labels| && p(labels[i]) && r.value == labels[i].id
  {
    match FirstIndex(labels, p)
    case None => None
    case Some(i) => Some(labels[i].id)
  }

  /** NextId yields None exactly when no label passes the test, and
      otherwise the id of the first label that does. */
  lemma NextIdSpec(labels: seq<Label>, p: Label -> bool)
    ensures NextId(labels, p).None? <==> forall j :: 0 <= j < |labels| ==> !p(labels[j])
    ensures NextId(labels, p).Some? ==>
      exists i :: 0 <= i < |labels| && p(labels[i]) && NextId(labels, p).value == labels[i].id
    ensures forall i :: (0 <= i < |labels| && p(labels[i]) &&
      forall j :: 0 <= j < i ==> !p(labels[j])) ==> NextId(labels, p) == Some(labels[i].id)
  {
    match FirstIndex(labels, p)
    case None =>
    case Some(i) =>
      forall i' | 0 <= i' < |labels| && p(labels[i']) && forall j :: 0 <= j < i' ==> !p(labels[j])
        ensures NextId(labels, p) == Some(labels[i'].id)
      {
        FirstIndexUnique(labels, p, i');
      }
  }

  /** Declarative vocabulary for the resolver's contract. */

  ghost predicate HasId(labels: seq<Label>, id: string) {
    exists i :: 0 <= i < |labels| && labels[i].id == id
  }

  /** The token hits by id: some label carries it as id, and it is non-empty
      (an empty id is falsy and does not count as a match). */
  ghost predicate IdHit(labels: seq<Label>, token: string) {
    token != "" && HasId(labels, token)
  }

  predicate NameEq(l: Label, token: string) {
    Lower(l.name) == Lower(token)
  }

  /** Label `i` is the first one, in board order, whose name equals the
      token ignoring case. */
  ghost predicate FirstNameMatchAt(labels: seq<Label>, token: string, i: int) {
    && 0 <= i < |labels|
    && NameEq(labels[i], token)
    && forall j :: 0 <= j < i ==> !NameEq(labels[j], token)
  }

  /** The two tests of the resolver: the label's id is the token, and the
      label's name equals the token ignoring case. */
  function IdIs(token: string): Label -> bool {
    (l: Label) => l.id == token
  }

  function NameIs(token: string): Label -> bool {
    (l: Label) => NameEq(l, token)
  }

  /** One iteration of the loop over the tokens: the id the token contributes,
      or None when it is dropped. Whatever it produces is a non-empty id of
      the board; ResolveTokenSpec states which one. */
  function ResolveToken(labels: seq<Label>, token: string): (r: Option<string>)
    ensures r.Some? ==> r.value != "" && HasId(labels, r.value)
  {
    var idMatch := NextId(labels, IdIs(token));
    if Truthy(idMatch) then idMatch
    else
      var nameMatch := NextId(labels, NameIs(token));
      if Truthy(nameMatch) then nameMatch else None
  }

  /** The id match is tried first; the name match only when the id match is
      falsy; in each, the first label in board order decides. */
  lemma ResolveTokenSpec(labels: seq<Label>, token: string)
    // Id beats name.
    ensures IdHit(labels, token) ==> ResolveToken(labels, token) == Some(token)
    // Otherwise the first label whose name matches decides, and a match on a
    // label with an empty id drops the token.
    ensures !IdHit(labels, token) ==>
      forall i :: FirstNameMatchAt(labels, token, i) ==>
        ResolveToken(labels, token) == (if labels[i].id == "" then None else Some(labels[i].id))
    ensures (!IdHit(labels, token) &&
      forall i :: 0 <= i < |labels| ==> !NameEq(labels[i], token)) ==>
        ResolveToken(labels, token) == None
  {
    NextIdSpec(labels, IdIs(token));
    NextIdSpec(labels, NameIs(token));
  }

  /** The token is dropped exactly when it neither hits by id nor has a
      first name match on a label with a non-empty id. */
  lemma Dropped(labels: seq<Label>, token: string)
    ensures ResolveToken(labels, token).None? <==>
      !IdHit(labels, token) &&
      forall i :: FirstNameMatchAt(labels, token, i) ==> labels[i].id == ""
  {
    if !IdHit(labels, token) {
      match FirstIndex(labels, NameIs(token))
      case None =>
      case Some(i) => assert FirstNameMatchAt(labels, token, i);
    }
  }

  /** The resolver of one token, as a function value. */
  function TokenResolver(labels: seq<Label>): string -> Option<string> {
    (token: string) => ResolveToken(labels, token)
  }

  /** The ids the tokens contribute, in token order, duplicates kept. */
  function ResolveAll(labels: seq<Label>, tokens: seq<string>): (ids: seq<string>)
    ensures |ids| <= |tokens|
    ensures forall k :: 0 <= k < |ids| ==> ids[k] != "" && HasId(labels, ids[k])
  {
    FilterMapTraces(TokenResolver(labels), tokens);
    FilterMap(TokenResolver(labels), tokens)
  }

  /** `resolve_label_ids`: an empty snapshot returns no ids without aborting;
      otherwise no resolved id at all aborts, and anything else is returned. */
  function Resolve(labels: seq<Label>, tokens: seq<string>): (r: Resolution)
    ensures |labels| == 0 ==> r == Resolved([])
    ensures r == Abort ==> |labels| > 0
    ensures |labels| > 0 && r.Resolved? ==> |r.ids| > 0
    ensures r.Resolved? ==> |r.ids| <= |tokens|
    ensures r.Resolved? ==>
      forall k :: 0 <= k < |r.ids| ==> r.ids[k] != "" && HasId(labels, r.ids[k])
  {
    if |labels| == 0 then Resolved([])
    else
      var ids := ResolveAll(labels, tokens);
      if |ids| == 0 then Abort else Resolved(ids)
  }

  /** On a non-empty snapshot the resolver aborts exactly when no token
      resolves. */
  lemma AbortIffNothingMatched(labels: seq<Label>, tokens: seq<string>)
    requires |labels| > 0
    ensures Resolve(labels, tokens) == Abort <==>
      forall t :: 0 <= t < |tokens| ==> ResolveToken(labels, tokens[t]).None?
  {
    FilterMapTraces(TokenResolver(labels), tokens);
  }

  /** The loop of `resolve_label_ids`, written as the source writes it. */
  method ResolveLabelIds(labels: seq<Label>, tokens: seq<string>) returns (r: Resolution)
    ensures r == Resolve(labels, tokens)
  {
    if |labels| == 0 {
      return Resolved([]);
    }
    var ids: seq<string> := [];
    var i := 0;
    while i < |tokens|
      invariant 0 <= i <= |tokens|
      invariant ids == ResolveAll(labels, tokens[..i])
    {
      assert tokens[..i + 1][..i] == tokens[..i];
      var idMatch := NextId(labels, IdIs(tokens[i]));
      if Truthy(idMatch) {
        assert ResolveToken(labels, tokens[i]) == idMatch;
        ids := ids + [idMatch.value];
      } else {
        var nameMatch := NextId(labels, NameIs(tokens[i]));
        assert ResolveToken(labels, tokens[i]) == if Truthy(nameMatch) then nameMatch else None;
        if Truthy(nameMatch) {
          ids := ids + [nameMatch.value];
        }
      }
      i := i + 1;
    }
    assert tokens[..i] == tokens;
    if |ids| == 0 {
      r := Abort;
    } else {
      r := Resolved(ids);
    }
  }

  /** Resolution distributes over concatenation of the token list, so the
      tokens are handled independently and in order. */
  lemma ResolveAllAppend(labels: seq<Label>, a: seq<string>, b: seq<string>)
    ensures ResolveAll(labels, a + b) == ResolveAll(labels, a) + ResolveAll(labels, b)
  {
    FilterMapAppend(TokenResolver(labels), a, b);
  }

  /** A single token contributes its own resolution, if any. */
  lemma ResolveAllSingle(labels: seq<Label>, token: string)
    ensures ResolveAll(labels, [token]) ==
      match ResolveToken(labels, token)
      case None => []
      case Some(id) => [id]
  {
    assert [token][..0] == [];
  }

  /** Two resolving tokens give their two ids, in order. */
  lemma ResolveAllPair(labels: seq<Label>, a: string, b: string, x: string, y: string)
    requires ResolveToken(labels, a) == Some(x) && ResolveToken(labels, b) == Some(y)
    ensures ResolveAll(labels, [a, b]) == [x, y]
  {
    ResolveAllSingle(labels, a);
    ResolveAllSingle(labels, b);
    ResolveAllAppend(labels, [a], [b]);
    assert [a] + [b] == [a, b];
  }

  /** A third resolving token appends its id. */
  lemma ResolveAllSnoc(labels: seq<Label>, tokens: seq<string>, c: string, z: string)
    requires ResolveToken(labels, c) == Some(z)
    ensures ResolveAll(labels, tokens + [c]) == ResolveAll(labels, tokens) + [z]
  {
    ResolveAllSingle(labels, c);
    ResolveAllAppend(labels, tokens, [c]);
  }

  /** The token positions the resolved ids come from, in order. */
  function Origins(labels: seq<Label>, tokens: seq<string>): seq<nat> {
    Sources(TokenResolver(labels), tokens)
  }

  /** Order preservation. The k-th resolved id is produced by the token at
      position Origins[k]; the positions strictly increase; and every token
      that resolves has its position among them. So the output is exactly the
      resolving tokens' ids, in token order. */
  lemma OrderPreserved(labels: seq<Label>, tokens: seq<string>)
    ensures var ids := ResolveAll(labels, tokens);
      var o := Origins(labels, tokens);
      && |o| == |ids|
      && (forall k :: 0 <= k < |o| ==>
            o[k] < |tokens| && ResolveToken(labels, tokens[o[k]]) == Some(ids[k]))
      && (forall k, m :: 0 <= k < m < |o| ==> o[k] < o[m])
      && (forall t :: 0 <= t < |tokens| && ResolveToken(labels, tokens[t]).Some? ==> t in o)
  {
    FilterMapTraces(TokenResolver(labels), tokens);
  }

  /** Duplicates are not removed: two tokens that resolve to the same id
      both contribute it. */
  lemma DuplicatesKept(labels: seq<Label>, tokens: seq<string>, i: nat, j: nat, id: string)
    requires i < j < |tokens|
    requires ResolveToken(labels, tokens[i]) == Some(id)
    requires ResolveToken(labels, tokens[j]) == Some(id)
    ensures var ids := ResolveAll(labels, tokens);
      exists k, m :: 0 <= k < m < |ids| && ids[k] == id && ids[m] == id
  {
    OrderPreserved(labels, tokens);
    var ids := ResolveAll(labels, tokens);
    var o := Origins(labels, tokens);
    var k :| 0 <= k < |o| && o[k] == i;
    var m :| 0 <= m < |o| && o[m] == j;
    IncreasingOrder(o, k, m);
    assert ids[k] == id && ids[m] == id;
  }

  /** Any non-empty id of the board, given back as a token, resolves to
      itself; on its own it is the whole result. */
  lemma IdRoundTrip(labels: seq<Label>, i: nat)
    requires i < |labels| && labels[i].id != ""
    ensures ResolveToken(labels, labels[i].id) == Some(labels[i].id)
    ensures Resolve(labels, [labels[i].id]) == Resolved([labels[i].id])
  {
    assert IdHit(labels, labels[i].id);
    assert [labels[i].id][..0] == [];
  }

  /** Name matching ignores case: two tokens that lower to the same string
      and do not hit by id resolve alike. */
  lemma CaseInsensitive(labels: seq<Label>, a: string, b: string)
    requires Lower(a) == Lower(b)
    requires !IdHit(labels, a) && !IdHit(labels, b)
    ensures ResolveToken(labels, a) == ResolveToken(labels, b)
  {
    ResolveTokenSpec(labels, a);
    ResolveTokenSpec(labels, b);
    assert forall l: Label :: NameEq(l, a) == NameEq(l, b);
    match FirstIndex(labels, NameIs(a))
    case None =>
      assert forall i :: 0 <= i < |labels| ==> !NameEq(labels[i], b);
    case Some(i) =>
      assert FirstNameMatchAt(labels, a, i);
      assert FirstNameMatchAt(labels, b, i);
  }
}
