# ParseUserLog, modelled in Dafny

ParseUserLog mines the logs of a poker bot. Each log line carries a timestamp, an event kind and a JSON record. The tool keeps two kinds of record:

- `SHOW_ACTION` records: the seat to act, the table and the action taken;
- `GAME_OVER` records: the settlement of a round, with its winners.

Canonicalising a record canonicalises the board, then each player's hole cards in turn, up to and including the first hand that fails the five-character test: tokens sorted and joined with `,`. Players after that one keep no canonical string. A record is stored only when its player list is present and every player's canonical hole-card string has five characters (the `XX,YY` shape of two two-character cards). Each action is then paired with the first later settlement at the same seating that lists the acting player. When that settlement names the player among its winners, a row goes into the `DIGESTED` table:

- the canonical hole cards;
- the canonical board;
- the action;
- the winner's hand rank.

The dump reads the grouped averages back and writes one row per hole-cards/board situation: the action with the greatest average rank. A small Python helper turns the dump into a `Cards;Board -> Action` table and looks decisions up in it.

The modules follow the program's structure:

| module | models |
|---|---|
| `Wrappers` | `Option`, standing for C# `null` / Python `None` |
| `Ordinal` | ordinal (code-point) string order and its laws |
| `CardSort` | `SortCards`, the `,`-join, and the canonical card string |
| `Players`, `Tables` | the `Player` and `Table` classes, with their `Canonicalize` methods and `Same` |
| `Records` | the `Data` class: `Canonicalize`, `FindPlayer`, `FindWinner`, `CurrentPlayer` |
| `EventStore` | the map-building part of `ParseFile` |
| `Correlator` | the local `FindWinner` of `TraverseAndSaveDigested` |
| `Traverse` | the time-ordered walk, the insert-if-absent `DIGESTED` table and the progress percentages |
| `CardKeys`, `Digests`, `Stages` | the `cards;board` key, the `Digested` row and the `Stage` helper |
| `Merge` | the reader loop of `DumpDigested`, specified by `Collapse` |
| `Decisions` | `decision_from_parsed` and `get_parsed_decision` |

Modelling choices:

- **Classes.** `Player`, `Table` and `Data` are classes. Their deserialised fields are `const`, because the core never writes them. The cached strings `Cards` and `Board` are `var Option<string>`, with `None` standing for `null`.
- **The DIGESTED table** is a `map<int, Row>` from timestamp to row. It is passed in and returned, and a row is inserted only when the time is absent.
- **Progress output.** The percentages written to standard error are returned as a sequence.
- **Timestamps** are `int`. `DateTime` order is integer order.

- **Settlement choice.** A settlement qualifies only when it has the same seating *and* lists the acting player (the `where` clause at `Program.cs:135`). The player's entry is then looked up among that settlement's winners only.

## Model

| member | source | states |
|---|---|---|
| Ordinal.LeReflexive | ParseUserLog/Program.cs:226 | ordinal order is reflexive |
| Ordinal.LeTotal | ParseUserLog/Program.cs:226 | any two strings are comparable |
| Ordinal.LeAntisymmetric | ParseUserLog/Program.cs:226 | strings each ordered before the other are equal |
| Ordinal.LeTransitive | ParseUserLog/Program.cs:226 | ordinal order is transitive |
| CardSort.InsertSpec | ParseUserLog/Program.cs:226 | inserting into a sorted list keeps it sorted and adds exactly that element to the multiset |
| CardSort.LowerBoundKept | ParseUserLog/Program.cs:226 | a lower bound of a list and of an inserted element bounds every element of the result |
| CardSort.SortSpec | ParseUserLog/Program.cs:226-227 | `OrderBy(card => card)` yields an ascending permutation of its input |
| CardSort.SortCardsSpec | ParseUserLog/Program.cs:226-227 | `SortCards` of null is empty; otherwise it is sorted and has the same multiset of tokens |
| CardSort.SortedHeadLeast | ParseUserLog/Program.cs:226 | the head of a sorted list is below every element |
| CardSort.TailMultiset | ParseUserLog/Program.cs:226-227 | dropping the head removes exactly one copy of it |
| CardSort.SortedUnique | ParseUserLog/Program.cs:226-227 | two sorted permutations of one multiset are equal, so the sort result is unique |
| CardSort.CanonicalCardsPermutation | ParseUserLog/Player.cs:15 | the canonical string depends only on the multiset of tokens |
| CardSort.SortIdempotent | ParseUserLog/Program.cs:226-227 | sorting a sorted list changes nothing |
| CardSort.CanonicalCardsIdempotent | ParseUserLog/Table.cs:13 | canonicalising already sorted tokens gives the same string |
| CardSort.JoinLength | ParseUserLog/Player.cs:15 | the joined string is as long as the tokens plus one separator between neighbours |
| CardSort.InsertWidth | ParseUserLog/Program.cs:226 | insertion adds exactly the inserted token's width |
| CardSort.SortWidth | ParseUserLog/Program.cs:226-227 | sorting keeps the total width of the tokens |
| CardSort.CanonicalCardsLength | ParseUserLog/Player.cs:15-16 | the canonical string's length is the tokens' widths plus one comma per gap |
| CardSort.CanonicalCardsAbsent | ParseUserLog/Program.cs:227 | absent tokens give the empty string (the pre-flop board) |
| Players.Player.Canonicalize | ParseUserLog/Player.cs:13-17 | `Cards` becomes the sorted, comma-joined hole cards even when the result is false; the result is true exactly when that string has length 5 |
| Players.HoleCardsValidWidth | ParseUserLog/Player.cs:16 | the length-5 test holds exactly when the tokens are non-empty and their widths plus commas make 5 |
| Players.UniformWidth | ParseUserLog/Player.cs:16 | tokens of one width `w` have total width `w` times their number |
| Players.HoleCardsValidTwoCards | ParseUserLog/Player.cs:16 | two-character tokens are accepted exactly when there are two of them |
| Players.HoleCardsRejectOneOrThree | ParseUserLog/Player.cs:16 | one or three two-character cards are rejected, with strings of length 2 and 8 |
| Players.HoleCardsAbsent | ParseUserLog/Player.cs:15-16 | absent hole cards are rejected (their canonical string is `""`) |
| Players.HoleCardsValidPermutation | ParseUserLog/Player.cs:15-16 | acceptance does not depend on the order of the hole cards |
| Tables.Table.Canonicalize | ParseUserLog/Table.cs:13 | `Board` becomes the sorted, comma-joined board (`""` when absent); it is a function of the constant board, so a second call leaves it unchanged; no other field can change |
| Tables.SameIsSeatingEquality | ParseUserLog/Table.cs:15 | `Same` holds exactly when table number, small-blind name and big-blind name agree; it is reflexive and symmetric |
| Tables.SameTransitive | ParseUserLog/Table.cs:15 | `Same` is transitive |
| Tables.TableNumberReuseIsNotSame | ParseUserLog/Table.cs:15 | an equal table number with another blind player is not the same seating |
| Records.FirstMatch | ParseUserLog/Data.cs:17-19 | `FirstOrDefault`: the index found matches and every earlier element does not; no index means nothing matches |
| Records.FirstInvalidHand | ParseUserLog/Data.cs:14 | the players before the index all have valid hands; the player at the index does not |
| Records.CanonicalizeAll | ParseUserLog/Data.cs:14 | `All` short-circuits: true exactly when every hand is valid; players up to the first failure get their canonical `Cards`, later ones keep theirs |
| Records.Data.Visited | ParseUserLog/Data.cs:14 | the number of players `All` visits is at most the number of players |
| Records.Data.Canonicalize | ParseUserLog/Data.cs:11-15 | false when players are absent; otherwise true exactly when every hand is valid; the table's `Board` is canonicalised whatever the players' outcome; visited players get canonical `Cards`, unvisited ones keep theirs |
| Records.Data.FindPlayer | ParseUserLog/Data.cs:17 | the first player with that name, an element of the array; none when there is no match or no array |
| Records.Data.FindWinner | ParseUserLog/Data.cs:19 | the first winner with that name, an element of the array; none when there is no match or no array |
| Records.Data.CurrentPlayer | ParseUserLog/Data.cs:26 | `FindPlayer` of the action's player name; none without an action |
| EventStore.MinExists | ParseUserLog/Program.cs:143 | a non-empty set of timestamps has a least element |
| EventStore.MinKey | ParseUserLog/Program.cs:143 | the least timestamp of a non-empty set |
| EventStore.SortedKeys | ParseUserLog/Program.cs:143 | `OrderBy(pair => pair.Key)`: every timestamp exactly once, strictly ascending |
| EventStore.LastStored | ParseUserLog/Program.cs:98-108 | the index of the last stored event of a kind at a timestamp; none when there is no such event |
| EventStore.IngestLastWriteWins | ParseUserLog/Program.cs:98-108 | a timestamp is in a map exactly when some stored event has it, and it maps to the record of the last such event |
| EventStore.IngestStoresValidHands | ParseUserLog/Program.cs:99 | only records whose `Canonicalize` returned true are stored |
| EventStore.LaterRecordSeparate | ParseUserLog/Program.cs:98 | freshly decoded records share no object with the records before them |
| EventStore.FootprintGrows | ParseUserLog/Program.cs:98 | the objects of the records read so far only grow |
| EventStore.IngestEvent | ParseUserLog/Program.cs:98-110 | one event: decoded records that canonicalise go to their kind's map, overwriting an equal timestamp; the others change nothing |
| EventStore.ParseFile | ParseUserLog/Program.cs:98-118 | the two maps are the last-write-wins maps of the stored events, every stored record is canonicalised, and the file is marked for deletion exactly when both maps are empty |
| Correlator.FirstSettlement | ParseUserLog/Program.cs:131-137 | the first key in ascending order after the action time whose settlement has the same seating and lists the player |
| Correlator.SelectSettlement | ParseUserLog/Program.cs:131-137 | the earliest qualifying GAME_OVER time strictly after the action; none when no later settlement qualifies |
| Correlator.FindWinner | ParseUserLog/Program.cs:131-138 | a winner found carries the player's name; no qualifying settlement means no winner |
| Correlator.FindWinnerFromEarliest | ParseUserLog/Program.cs:131-138 | a winner found is listed among the winners of the earliest qualifying later settlement |
| Correlator.FindWinnerAtEarliest | ParseUserLog/Program.cs:131-138 | conversely, given the earliest qualifying later settlement, the winner found is exactly the player's first entry among its winners, and none when it has no such entry |
| Correlator.SelectionIsEarliest | ParseUserLog/Program.cs:131-137 | the earliest qualifying later settlement is the one selected |
| Correlator.SelectionAgreesUpTo | ParseUserLog/Program.cs:131-137 | settlements that agree up to the selection select the same one |
| Correlator.LaterSettlementsIgnored | ParseUserLog/Program.cs:137 | adding a settlement after the selected one changes nothing |
| Correlator.LaterWinnersIgnored | ParseUserLog/Program.cs:137-138 | a settlement after the selected one is never consulted for winners, even when the player did not win in the selected one |
| Correlator.SelectionCarriesOver | ParseUserLog/Program.cs:135 | a selection survives any change at or before the action time |
| Correlator.OnlyLaterSettlementsMatter | ParseUserLog/Program.cs:135 | selection and winner depend only on the settlements after the action time |
| Correlator.EarlierSettlementsIgnored | ParseUserLog/Program.cs:135 | a settlement at or before the action time changes neither selection nor winner |
| Traverse.RowForSpec | ParseUserLog/Program.cs:145-160 | a row is produced exactly when the current player exists and a winner is found; it carries the action label and the hand rank of the player's first winner entry in the earliest qualifying later settlement |
| Traverse.RowForAtEarliest | ParseUserLog/Program.cs:145-160 | given the acting player and the earliest qualifying later settlement, the row is determined: none when the player is not among its winners, otherwise the cached cards, cached board, action label and that winner entry's rank |
| Traverse.RowForWithoutSettlement | ParseUserLog/Program.cs:145-148 | with no acting player or no qualifying later settlement there is no row |
| Traverse.RowForCanonical | ParseUserLog/Program.cs:156-157 | the row's cards and board are the canonical hole cards and board, and the cards have length 5 |
| Traverse.DivMonotone | ParseUserLog/Program.cs:164 | helper for the progress proof: integer division by a positive divisor is monotone, so `i * 100 / total` never decreases |
| Traverse.MulCancel | ParseUserLog/Program.cs:164 | helper for the progress proof (used by `DivMonotone`): a positive factor cancels in a strict comparison |
| Traverse.PercentBounds | ParseUserLog/Program.cs:164 | `i * 100 / total` is 0 at the start, at most 100, and 100 at the end |
| Traverse.SaveAllAt | ParseUserLog/Program.cs:143-162 | after visiting distinct times, a time has a row exactly when it had one or a visited action found a winner; old rows are kept, new ones are `RowFor` |
| Traverse.SaveAllSpec | ParseUserLog/Program.cs:143-162 | the same for every timestamp at once |
| Traverse.SaveAllInTimeOrder | ParseUserLog/Program.cs:143-162 | visiting all actions in ascending time order adds exactly their rows and keeps the existing ones |
| Traverse.NothingToVisit | ParseUserLog/Program.cs:124-127 | with no actions or no settlements no action has a row, so returning early loses nothing |
| Traverse.SaveAllStep | ParseUserLog/Program.cs:152-160 | visiting one more time is one insert-if-absent |
| Traverse.Advance | ParseUserLog/Program.cs:163-169 | the new percentage is `(i + 1) * 100 / total`, never decreases, stays at most 100 and reaches 100 at the last action; it is written only when it grows |
| Traverse.Walk | ParseUserLog/Program.cs:143-170 | the `foreach` leaves the table equal to visiting every key in order, and the percentages written climb strictly to 100 |
| Traverse.TraverseAndSaveDigested | ParseUserLog/Program.cs:121-172 | the table gains exactly the rows of actions with a winner, keeping earlier rows; nothing happens when either map is empty; the percentages written increase strictly within 1..100 and end at 100 |
| CardKeys.AllCardsKeyParts | ParseUserLog/Digested.cs:7 | the key has length `|cards| + |board| + 1` and splits back into cards, `;` and board |
| CardKeys.AllCardsInjective | ParseUserLog/Digested.cs:7 | with `;`-free cards, equal keys mean equal cards and equal boards |
| CardKeys.AllCardsKeyEqualIff | ParseUserLog/Digested.cs:7 | with `;`-free cards, keys are equal exactly when cards and boards are |
| Digests.AllCardsEqualIff | ParseUserLog/Program.cs:202 | the group test on `AllCards` compares exactly cards and board, whatever the action, rank and count |
| Stages.Stage.AverageRank | ParseUserLog/Stage.cs:7 | `rank / count`: multiplied back by `count` it gives `rank`, and it lies between 0 and `rank` for a non-negative rank |
| Stages.OrderExtendsAllCards | ParseUserLog/Stage.cs:8-9 | `AllCards + ";"` is a proper prefix of `Order` |
| Stages.OrderInjective | ParseUserLog/Stage.cs:9 | with `;`-free fields, `Order` determines cards, board and action |
| Stages.BetweenKeepsPrefix | ParseUserLog/Stage.cs:9 | in ordinal order, a string between two strings with a common prefix has that prefix |
| Stages.SplitTwice | ParseUserLog/Stage.cs:9 | a two-separator key splits uniquely |
| Stages.Regroup | ParseUserLog/Stage.cs:8-9 | `Order` is the `AllCards` key of the cards and of `board;action` |
| Stages.OrderPrefixDeterminesAllCards | ParseUserLog/Stage.cs:8-9 | a stage whose `Order` starts with `c;b;` has `AllCards` `c;b` |
| Stages.OrderGroupsAllCards | ParseUserLog/Stage.cs:8-9 | sorting by `Order` keeps rows with equal `AllCards` together |
| Merge.RunEnd | ParseUserLog/Program.cs:198-210 | the end of the run starting at a row lies after it and within the input |
| Merge.RunEndSpec | ParseUserLog/Program.cs:202 | a run is maximal: its rows share the first row's key, and the next row's key differs |
| Merge.WithinRun | ParseUserLog/Program.cs:202 | every row before the end of a run shares its key |
| Merge.RunBreaks | ParseUserLog/Program.cs:202 | the row after a run has another key |
| Merge.ChangesAfterRun | ParseUserLog/Program.cs:202 | the key changes after a row are one at the end of its run, plus those further on |
| Merge.Best | ParseUserLog/Program.cs:207-210 | the row kept for a range lies within it |
| Merge.BestSpec | ParseUserLog/Program.cs:207-210 | the row kept has the greatest average rank of its range, and every earlier row of the range is strictly lower, so ties keep the first |
| Merge.IsBestUnique | ParseUserLog/Program.cs:207-210 | at most one row of a range has that property |
| Merge.ExtendBest | ParseUserLog/Program.cs:207-210 | replacing the kept row only on a strictly greater rank keeps it the best of the longer range |
| Merge.Collapse | ParseUserLog/Program.cs:187-215 | the rows written number at most the rows read; nothing is written exactly when nothing is read |
| Merge.DumpDigested | ParseUserLog/Program.cs:187-215 | the reader loop writes exactly `Collapse`: the best row of each maximal run of equal `AllCards`, in order |
| Merge.Consider | ParseUserLog/Program.cs:190-210 | one read row keeps the loop invariant: written rows plus the rest still to write give the whole dump, and the current row is the best of the open run |
| Merge.BestInRun | ParseUserLog/Program.cs:202-210 | the row kept in an open run has the run's key |
| Merge.FirstRow | ParseUserLog/Program.cs:198-201 | the first row read opens a run |
| Merge.CloseRun | ParseUserLog/Program.cs:202-206 | on a key change the kept row is written and the new row opens a run |
| Merge.ExtendRun | ParseUserLog/Program.cs:207-210 | within a run the kept row is replaced only by a strictly better one |
| Merge.LastRun | ParseUserLog/Program.cs:212-215 | after the last row, only the open run's best remains to be written |
| Merge.CollapseHead | ParseUserLog/Program.cs:202-205 | the first row written from a position has that position's key |
| Merge.CollapseCountsRuns | ParseUserLog/Program.cs:187-215 | one row is written per key change, plus one |
| Merge.CollapseFromInput | ParseUserLog/Program.cs:190-210 | the rows written are a sub-multiset of the rows read |
| Merge.PickOne | ParseUserLog/Program.cs:190-210 | choosing one row of a segment and rows from after it stays within the rows from the segment on |
| Merge.CollapseNeighboursDiffer | ParseUserLog/Program.cs:202-206 | neighbouring written rows have different keys |
| Merge.CollapseDominates | ParseUserLog/Program.cs:187-215 | every row read is dominated by a written row with its key and an average rank at least as high |
| Merge.DominatedAt | ParseUserLog/Program.cs:187-215 | the same for one row |
| Merge.QueryBetween | ParseUserLog/Program.cs:184 | under `ORDER BY LEN(BOARD), CARDS, BOARD`, a row between two rows of one key has that key |
| Merge.QueryOrderGroups | ParseUserLog/Program.cs:181-184 | rows in query order come grouped by `AllCards` |
| Merge.WrittenFrom | ParseUserLog/Program.cs:190-210 | every written row is one of the rows read from that position on |
| Merge.GroupedAt | ParseUserLog/Program.cs:184 | in grouped input, a row between two rows of one key has that key |
| Merge.CollapseDistinctWhenGrouped | ParseUserLog/Program.cs:181-215 | on grouped input every key is written at most once |
| CardSort.SortCards | ParseUserLog/Program.cs:226-227 | computes `SortCards`; its property (null gives no tokens, otherwise an ascending permutation) is stated by `CardSort.SortCardsSpec` and `CardSort.SortSpec` |
| CardSort.Join | ParseUserLog/Player.cs:15 | computes `String.Join`; its length is stated by `CardSort.JoinLength` |
| CardSort.CanonicalCards | ParseUserLog/Player.cs:15 | computes the sorted, comma-joined card string; order independence by `CardSort.CanonicalCardsPermutation`, idempotence by `CardSort.CanonicalCardsIdempotent`, length by `CardSort.CanonicalCardsLength` |
| Tables.Table.Same | ParseUserLog/Table.cs:15 | computes the seating test; `Tables.SameIsSeatingEquality` and `Tables.SameTransitive` state it is equality of the seating triple |
| EventStore.Ingest | ParseUserLog/Program.cs:98-108 | computes the timestamp map of one kind; `EventStore.IngestLastWriteWins` states it holds the last stored record per timestamp |
| Traverse.RowFor | ParseUserLog/Program.cs:145-160 | computes the row for one action; `Traverse.RowForSpec`, `Traverse.RowForAtEarliest` and `Traverse.RowForCanonical` state what it holds |
| Traverse.InsertIfAbsent | ParseUserLog/Program.cs:152-154 | computes `IF NOT EXISTS … INSERT`; `Traverse.SaveAllAt` states that existing rows are kept and new ones added |
| Traverse.SaveAll | ParseUserLog/Program.cs:143-162 | computes the table after visiting keys in order; `Traverse.SaveAllSpec` and `Traverse.SaveAllInTimeOrder` state its rows |
| Digests.Digested.AllCards | ParseUserLog/Digested.cs:7 | computes `cards + ";" + board`; `CardKeys.AllCardsKeyParts` and `Digests.AllCardsEqualIff` state its shape and when two keys agree |
| Stages.Stage.AllCards | ParseUserLog/Stage.cs:8 | computes `cards + ";" + board`; `Stages.OrderExtendsAllCards` relates it to `Order` |
| Stages.Stage.Order | ParseUserLog/Stage.cs:9 | computes `AllCards + ";" + action`; `Stages.OrderInjective` and `Stages.OrderGroupsAllCards` state it determines the fields and groups equal `AllCards` |
| Decisions.DecisionFromParsed | ParseUserLog/LoadParsedCSV.py:24-25 | computes the dict comprehension; `Decisions.DecisionFromParsedSpec` states it holds exactly the row keys with the last row's action |
| Decisions.GetParsedDecision | ParseUserLog/LoadParsedCSV.py:32-34 | computes the lookup; `Decisions.LookupFindsLastRow` states it answers the last matching row's action, or `None` |
| Decisions.LastRowWith | ParseUserLog/LoadParsedCSV.py:24-25 | the last row with a key, or none when no row has it |
| Decisions.DecisionFromParsedSpec | ParseUserLog/LoadParsedCSV.py:24-25 | the table holds exactly the rows' keys, each with the action of its last row |
| Decisions.LastRowWithFinds | ParseUserLog/LoadParsedCSV.py:24-25 | a row that no later row shares its key with is that key's last row |
| Decisions.EveryRowKeyed | ParseUserLog/LoadParsedCSV.py:24-25 | every row's key is in the table, and a row not overwritten later gives its action |
| Decisions.LookupFindsLastRow | ParseUserLog/LoadParsedCSV.py:28-34 | for `;`-free cards, the lookup answers the action of the last row with exactly those cards and board, and `None` when no row has them |
| Decisions.UnsortedCardsMiss | ParseUserLog/LoadParsedCSV.py:29-34 | the lookup does not sort: `3C,2D` misses the entry stored as `2D,3C`, which is found |
| Decisions.SortedLookupIgnoresOrder | ParseUserLog/LoadParsedCSV.py:29-31 | once the caller sorts and joins the cards, the answer depends only on which cards are held |
| Decisions.ParsedFrom | ParseUserLog/LoadParsedCSV.py:24 | each row read back has the key `AllCards` of the row dumped, and its action |
| Decisions.DumpedDecisionsFound | ParseUserLog/LoadParsedCSV.py:24-34 | on grouped query output, looking up any dumped row's cards and board answers that row's action |

## Left out

- Reading log files: the regular expressions, `StreamReader`, `DateTime.Parse`, the folder walk and `Main`. The model starts from a sequence of events, each a timestamp, a kind and an optional record.
- Deleting an empty file: `ParseFile` only returns the `delete` flag.
- JSON decoding (`Record.Parse`): a record is given already decoded, or absent.
- The SQL Server connection and `INSERT` execution: the table is a map with insert-if-absent.
- The `AVG`/`SUM`/`GROUP BY` of the dump query: the merge takes the query's rows as given. Its `ORDER BY` is captured only as the assumption `QueryOrdered` (with ordinal collation), from which grouping is proved.
- The CSV header, quoting and number formatting of the dump, and the Python `csv.DictReader` reading: `ParsedFrom` keeps only the three columns the lookup uses.
- Strings compare by ordinal order on code points (Dafny characters are Unicode scalar values). .NET's default comparer is culture-sensitive, and .NET's own ordinal order compares UTF-16 code units, which differs above U+FFFF; for the ASCII card tokens all agree with the "ASCII code sorting order" the Python helper documents.
- Players.Player.Canonicalize: the `Cards.Length == 5` test counts UTF-16 code units, while the model counts code points (`|CanonicalCards(cards)| == 5`); the two differ for a token holding a character above U+FFFF.
- A null element inside a hole-card or board array (JSON `[null,"Ah"]`) cannot be expressed: tokens are `seq<string>`. In the C#, `OrderBy` sorts such an element first and `String.Join` renders it as an empty token.
- `double` is modelled as `real`: no rounding, NaN or infinities.
- Stages.Stage.AverageRank: exact division under `count >= 1`; the double rounding of `rank / count` is not modelled.
- Traverse.Advance: `i * 100` is an unbounded integer; the 32-bit overflow past about 21 million actions is not modelled.
- Null dereferences are preconditions rather than crashes:
  - a settlement or action without a table (`TablesPresent`, `data.table.Some?`);
  - `record.data` null at Program.cs:99: a log event carries its decoded `Data` directly, without the `Record` wrapper, so a record without data cannot be expressed;
  - `winner.hand` null at Program.cs:159: `Hand` is a non-null datatype field of `Winner`;
  - `player.Cards` read without a current player at Program.cs:156: the model produces no row when there is no current player. The C# then calls `FindWinner` with a null name, which matches a nameless player (`null == null`), and if such a winner exists it dereferences the null `player`.
- Blinds and player names are never null in the model (names are `string`, not optional).
- EventStore.ParseFile requires the records' objects to be separate (`SeparateRecords`). Each decoded line builds fresh objects, so aliasing between records is not modelled.
- Action.cs, Hand.cs, Winner.cs and Blind.cs carry no behaviour; only the fields the core reads are kept, as datatype fields. Record.cs's `Parse` is the JSON decoding left out above, and its `data` field is carried directly by each log event.
- Standard-error progress text other than the percentages, and the `*** traversing` / `*** dumping` banners.
