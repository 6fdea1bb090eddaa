# Trello card CLI: label resolution and the card request

This project models the decision logic of a small command-line client for
Trello's REST API: the label resolver `TrelloCardCLI.resolve_label_ids` and
the part of `TrelloCardCLI.create_card` that uses it, both in
`trello_main.py`.

The resolver turns label tokens typed by the user into Trello label ids. It
reads one fetched snapshot of the board's labels, in the order the service
lists them. For each token, in order:

- it first looks for a label whose id equals the token;
- failing that, it looks for a label whose name equals the token ignoring
  case;
- otherwise it drops the token.

Each search takes the first matching label. A match counts only when the
label's id is non-empty, because Python treats the empty string as false.

If the snapshot is empty, the resolver returns no ids and does not abort.
This covers both a failed fetch and a board with no labels. If the snapshot
is non-empty and no token resolved, it prints the board's labels and exits
with status 1. In every other case it returns the resolved ids in token
order, duplicates included. `create_card` runs the resolver only when label
tokens were given. It then sends the ids as the comma-joined `idLabels`
form field.

Modules:

- `Seqs` (seqs.dfy): `Option`, and two generic helpers. `FirstIndex`
  models `next(..., None)`. `FilterMap` models a loop that appends the
  defined results.
- `Text` (text.dfy): ASCII lower-casing, `','.join`, and `split` as join's
  inverse.
- `Resolver` (resolver.dfy): the `Label` record, the one-token step
  `ResolveToken`, the whole resolver `Resolve`, and a loop version
  `ResolveLabelIds` shaped like the source. It also holds the lemmas about
  them.
- `Cards` (cards.dfy): the card-creation request, or the exit that
  prevents it.
- `Scenarios` (scenarios.dfy): concrete boards and tokens worked through
  the model.

A failed fetch does not abort: `get_labels` then yields `None`, which line
63 treats like an empty list, so the resolver returns `[]`
(trello_main.py:63-64). Duplicate ids are kept: nothing in the loop removes
them (trello_main.py:66-78).

## Model

| member | source | states |
|---|---|---|
| Seqs.FirstIndex | trello_main.py:69 | The reported index satisfies the test and no earlier element does. None means no element satisfies it. This is `next` over a generator, scanned in order. |
| Seqs.FirstIndexUnique | trello_main.py:69 | Any position that satisfies the test with no earlier satisfying position is the one reported. |
| Seqs.FilterMap | trello_main.py:66-78 | The result is no longer than the input. It is empty exactly when no element yields a value. |
| Seqs.FilterMapAppend | trello_main.py:66-78 | Collecting over a concatenation is the concatenation of the two collections. |
| Seqs.FilterMapTraces | trello_main.py:66-78 | Every element that yields a value contributes it. Nothing else contributes. Contributions keep input order. |
| Text.LowerChar | trello_main.py:75 | An ASCII capital maps to its small letter. Every other character is unchanged. No result is a capital. |
| Text.Lower | trello_main.py:75 | `lower()` keeps the length and lower-cases each character in place. |
| Text.LowerIdempotent | trello_main.py:75 | Lower-casing twice is the same as lower-casing once. |
| Text.LowerIgnoresCase | trello_main.py:75 | Two strings that agree position by position, up to the case of ASCII letters, lower to the same string. |
| Text.Join | trello_main.py:98 | Joining no parts gives "". Joining one part gives that part. With two or more parts the result starts with the first part, followed by the separator. |
| Text.Split | trello_main.py:98 | Splitting gives at least one piece. No piece contains the separator. |
| Text.SplitJoin | trello_main.py:98 | Splitting a join of one or more separator-free parts gives back the parts. |
| Text.JoinSplit | trello_main.py:98 | Joining the pieces of a split gives back the string. |
| Resolver.Truthy | trello_main.py:70-76 | The `if id_match` and `if name_match` tests: a match counts exactly when it is neither None nor the empty string. |
| Resolver.NextId | trello_main.py:69-75 | The `next(..., None)` over the labels' ids at lines 69 and 75: a result is the id of some label that passes the test. |
| Resolver.NextIdSpec | trello_main.py:69-75 | For both `next(..., None)` calls: None exactly when no label passes the test. Otherwise the result is the id of the first label that passes. |
| Resolver.ResolveToken | trello_main.py:67-78 | A token that resolves yields a non-empty id of some label on the board. |
| Resolver.ResolveTokenSpec | trello_main.py:69-78 | A non-empty token equal to some label's id resolves to that id, even when it also matches a name. Otherwise the first label whose name matches ignoring case decides: its id if non-empty, else the token is dropped. With no id or name match the token is dropped. |
| Resolver.Dropped | trello_main.py:69-78 | A token is dropped exactly when it has no non-empty id match and its first name match, if any, has an empty id. |
| Resolver.ResolveAll | trello_main.py:66-78 | At most one id per token. Every id is non-empty and belongs to a label of the snapshot. |
| Resolver.Resolve | trello_main.py:60-85 | An empty snapshot gives no ids and no abort. An abort needs a non-empty snapshot. A normal return from a non-empty snapshot has at least one id. Ids are bounded by the token count and are board ids. |
| Resolver.AbortIffNothingMatched | trello_main.py:80-84 | On a non-empty snapshot the resolver aborts exactly when no token resolves. |
| Resolver.ResolveLabelIds | trello_main.py:60-85 | The loop over the tokens, with its id-then-name matching, computes the resolver's outcome. |
| Resolver.ResolveAllAppend | trello_main.py:67-78 | Resolving a concatenation of token lists is the concatenation of the results, so tokens do not interact. |
| Resolver.ResolveAllSingle | trello_main.py:67-78 | A single token contributes its own resolution, or nothing. |
| Resolver.OrderPreserved | trello_main.py:67-78 | The k-th output id comes from the token at the k-th traced position. The positions strictly increase. Every resolving token is among them. |
| Resolver.DuplicatesKept | trello_main.py:66-78 | Two tokens that resolve to the same id put that id in the output twice. |
| Resolver.IdRoundTrip | trello_main.py:67-72 | A non-empty label id given back as a token resolves to itself. Alone, it is the whole result. |
| Resolver.CaseInsensitive | trello_main.py:75 | Two tokens that agree after lower-casing, and neither matching an id, resolve alike. |
| Cards.IdLabelsField | trello_main.py:98 | No ids give the empty field. A non-empty first id gives a non-empty field that starts with that id. |
| Cards.IdLabelsRoundTrip | trello_main.py:98 | The field splits back into the comma-free ids it was built from. |
| Cards.CardLabels | trello_main.py:91 | The resolver runs only when label tokens are given: no tokens give no ids and never an abort. An abort needs tokens and a non-empty snapshot. At most one id per token, and at least one when tokens were given to a non-empty snapshot. |
| Cards.CreateCardRequest | trello_main.py:87-102 | An exit needs given tokens and a non-empty snapshot. A posted request carries the key, token, list id and name. The description is sent only when given and non-empty. `idLabels` is empty exactly when no tokens were given or the snapshot was empty. |
| Cards.ExitIffNothingMatched | trello_main.py:91 | No card is requested exactly when tokens were given, the snapshot is non-empty and no token resolved. |
| Cards.IdLabelsListsResolvedIds | trello_main.py:91-98 | With comma-free label ids, a non-empty `idLabels` splits into the resolved ids in token order. |
| Cards.NoTokensNoLookup | trello_main.py:91 | Without label tokens the snapshot is not consulted: the request is the same for any snapshot, with an empty `idLabels`. |
| Scenarios.IdTokenResolves | trello_main.py:69-72 | On the example board, the id "L2" resolves to itself. |
| Scenarios.NameAndIdIds | trello_main.py:67-78 | On the example board, tokens "bug" then "L2" give "L1" then "L2". |
| Scenarios.NameAndIdInOrder | trello_main.py:60-85 | The same tokens give the outcome Resolved(["L1", "L2"]). |
| Scenarios.CasingsAgree | trello_main.py:75 | "bug", "Bug" and "BUG" all resolve to the label named "Bug". |
| Scenarios.UnknownTokenAborts | trello_main.py:80-84 | An unknown token on a non-empty board aborts, and no card request is built. |
| Scenarios.EmptySnapshotDoesNotAbort | trello_main.py:63-64 | With an empty snapshot the resolver returns nothing. The card is still requested, with an empty `idLabels`. |
| Scenarios.IdBeatsNameExample | trello_main.py:69-75 | A token that is one label's id and another label's name picks the id. |
| Scenarios.EmptyIdDropsToken | trello_main.py:75-84 | If the first name match has an empty id, the token is dropped even when a later label has a real id. The lone token then aborts. |
| Scenarios.DuplicateIds | trello_main.py:66-78 | "bug", "L2", "BUG" give "L1", "L2", "L1". |
| Scenarios.DuplicateField | trello_main.py:98 | Those ids join to "L1,L2,L1". |
| Scenarios.DuplicatesInRequest | trello_main.py:87-102 | The request carries "L1,L2,L1". An empty description is not sent. |

## Left out

- HTTP: `get_boards`, `get_lists`, `get_labels`, the card POST and
  `add_comment` are network I/O. The label fetch's result is the
  `snapshot`/`labels` parameter. An empty sequence stands for both `None`
  (failed fetch) and an empty list.
- Side effects of the abort: printing the warning and the label listing,
  and `sys.exit(1)`. They appear only as the `Abort` and `Exit` outcomes.
- The response handling after the POST: the error print, returning the card
  and the follow-up comment. None of it affects the request.
- `get_token` and the browser launch, which are interactive I/O.
- `main` and its two argparse passes, which are command-line plumbing.
  `--labels` absent (`None`) and an empty list are both falsy at line 91,
  and both are modelled as the empty token sequence.
- trello_main.py:6 imports `print_*_ids` helpers that trello_helper.py does
  not define. The model assumes the module loads. trello_helper.py itself is
  HTTP getters and console output and is not part of this model.
- Text.Lower: models `str.lower()` for ASCII only. Python's full Unicode
  case mapping, where some characters change length, is not modelled.
- Text.LowerChar: lower-cases 'A' to 'Z' only. Every other character,
  'Ä' included, is left unchanged, whereas Python lowers it.
- Label colour is carried in the `Label` record but plays no part in
  resolution. It is only printed by the abort listing.
- The JSON shape of responses is not modelled. A label is assumed to have
  string `id` and `name` fields; a missing key or a `None` name would raise
  in the source.
- Cards.IdLabelsListsResolvedIds: assumes label ids contain no comma. With
  commas in ids the joined field cannot be split back, and the source makes
  no promise about that case.
