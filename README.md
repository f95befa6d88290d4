# btcops coin selection and command line arguments, in Dafny

This project models two self-contained pieces of the btcops deposit bot.

- **Address-scoped coin selection** (`AddressBalance`). The bot asks the wallet for the balance of one address through a coin selector. Given a target amount and candidate outputs, the selector copies the candidates into a list. Unless the target is `MAX_MONEY` (21,000,000 × 10^8 satoshi, the "select everything" sentinel), it sorts the list by priority: value × depth descending, then value descending, then parent transaction hash ascending. It then walks the list, picking every output that passes `shouldSelect`, until the running total reaches the target. An output passes when it pays the queried address, is available for spending and its transaction is selectable. A transaction is selectable when its depth is at least 4 and it is BUILDING, or PENDING, made by this wallet and broadcast to more than one peer.
- **Command line arguments** (`Arguments`). Each argument must match `--([a-z\-]+)(=.+)?` as a whole. The arguments are collected into a map from key to the list of values given for that key, in argument order. A bare `--key` enters the key with an empty list. `net()` and `data()` return the first value of their key and `discovery()` returns the whole list. An accessor throws when its key is absent.

Files:

- `wrappers.dfy`: `Option` and `Result`. A `Result` stands for a Java exception.
- `outputs.dfy` (module `Outputs`): the output record, `IsSelectable`, `ShouldSelect` and the constants.
- `ordering.dfy` (module `OutputOrder`): the comparator and its order properties.
- `sorting.dfy` (module `OutputSort`): the stable sort as a function, `Sort`, and the in-place array sort `SortOutputs` proved equal to it.
- `selection.dfy` (module `AddressBalance`): the walk as a function, `Gather`, its properties, and the class `AddressBalance` whose imperative `Select` is proved equal to it.
- `arguments.dfy` (module `Arguments`): the hand-coded pattern, the imperative `AsMap` loop proved equal to `Collect`, and the accessors.

Modelling notes:

- An output carries the fields of its parent transaction's confidence that selection reads: type, depth, source, broadcast peers and hash (as a `nat`). It also carries its index in that transaction. Two outputs are then equal values exactly when they are the same output, which is what the `HashSet` of selected outputs relies on. A candidate listed twice, as in the source, adds its value to the total twice but enters the set once, so the total equals the sum of the gathered set only when the candidates are distinct.
- The destination address is `Option<Address>`, where `None` means that bitcoinj cannot extract an address from the script and throws. The source calls `getToAddress` at AddressBalance.java:91, before the `try` of lines 92-101. The exception therefore escapes `shouldSelect` and `select`, and is not turned into `false`. The model follows the code: `ShouldSelect` and `Select` return `Err(ScriptException(..))`, and `GatherFailsIff` states exactly when that happens. The `try` guards only statements that do not throw in the model, so its `catch` branch is not modelled.
- `isSelectable` applies the depth check to every confidence type, PENDING included (AddressBalance.java:109). The comparator reads the depth of BUILDING transactions only. `SelectableOnlyBuildingWhenDepthIsBuildingOnly` shows that if depth is 0 for every other type (the comparator ignores their depth), no PENDING output is ever selectable.
- The comparator returns 0 only when value × depth, value and hash all agree. Two outputs of one transaction with equal value therefore tie, so the order is a total preorder, not a strict total order. `Collections.sort` is stable, and so is the model's `Sort` (`SortStable`).
- The pattern is hand-coded. Java's `.` does not match the line terminators `\n`, `\r`, U+0085, U+2028 and U+2029, so a value containing one of them does not match.

## Model

| member | source | states |
|---|---|---|
| `Outputs.ShouldSelect` | src/main/java/wtf/harvest/btcops/AddressBalance.java:90-104 | fails exactly when the address cannot be extracted; answers true exactly when the output pays the queried address, is available and its transaction is selectable |
| `Outputs.IsSelectable` | src/main/java/wtf/harvest/btcops/AddressBalance.java:106-114 | only a BUILDING or PENDING output at depth 4 or more can be selectable; IN_CONFLICT, DEAD and UNKNOWN never are (the exact cases are `IsSelectableCases`) |
| `Outputs.IsSelectableCases` | src/main/java/wtf/harvest/btcops/AddressBalance.java:106-114 | depth below 4 is never selectable; at depth 4 or more BUILDING is, PENDING is exactly when the source is SELF and peers exceed 1, and any other type is not |
| `Outputs.SelectableOnlyBuildingWhenDepthIsBuildingOnly` | src/main/java/wtf/harvest/btcops/AddressBalance.java:106-114 | when depth is 0 for every type but BUILDING, selectable means BUILDING at depth at least 4 |
| `OutputOrder.CompareInt` | src/main/java/wtf/harvest/btcops/AddressBalance.java:76-84 | the three-way comparison answers -1, 0 or 1, negative exactly for less and 0 exactly for equal |
| `OutputOrder.Compare` | src/main/java/wtf/harvest/btcops/AddressBalance.java:63-85 | the comparator answers -1, 0 or 1 |
| `OutputOrder.CompareMeaning` | src/main/java/wtf/harvest/btcops/AddressBalance.java:63-85 | an output sorts first exactly when its value × depth (depth counted for BUILDING only) is larger, or equal with a larger value, or both equal with a smaller hash; it ties exactly when all three keys agree |
| `OutputOrder.CompareAntisymmetric` | src/main/java/wtf/harvest/btcops/AddressBalance.java:76-84 | swapping the arguments negates the answer |
| `OutputOrder.PrecedesTotal` | src/main/java/wtf/harvest/btcops/AddressBalance.java:76-84 | any two outputs are ordered one way or the other |
| `OutputOrder.PrecedesTransitive` | src/main/java/wtf/harvest/btcops/AddressBalance.java:76-84 | "sorts no later than" is transitive |
| `OutputOrder.AfterTransitive` | src/main/java/wtf/harvest/btcops/AddressBalance.java:76-84 | "sorts strictly after" is transitive |
| `OutputOrder.SameKeyEquivalence` | src/main/java/wtf/harvest/btcops/AddressBalance.java:76-84 | ties are an equivalence relation |
| `OutputSort.Sort` | src/main/java/wtf/harvest/btcops/AddressBalance.java:60-87 | the reference sort keeps the length; `SortPermutation`, `SortSorted` and `SortStable` state that it is the stable sorted permutation |
| `OutputSort.SortPermutation` | src/main/java/wtf/harvest/btcops/AddressBalance.java:60-87 | sorting yields a permutation of the input |
| `OutputSort.SortSorted` | src/main/java/wtf/harvest/btcops/AddressBalance.java:60-87 | sorting yields a list ordered by the comparator |
| `OutputSort.SortStable` | src/main/java/wtf/harvest/btcops/AddressBalance.java:60-87 | outputs that tie keep their input order |
| `OutputSort.SortedOrder` | src/main/java/wtf/harvest/btcops/AddressBalance.java:63-85 | in a sorted list, value × depth never increases, value never increases among equal value × depth, and hash never decreases among equal both |
| `OutputSort.InsertPermutation` | src/main/java/wtf/harvest/btcops/AddressBalance.java:61 | inserting one output adds exactly that output |
| `OutputSort.InsertSorted` | src/main/java/wtf/harvest/btcops/AddressBalance.java:61 | inserting into a sorted list keeps it sorted |
| `OutputSort.InsertKeepsTies` | src/main/java/wtf/harvest/btcops/AddressBalance.java:61 | inserting places the new output after the outputs it ties with |
| `OutputSort.SortOutputs` | src/main/java/wtf/harvest/btcops/AddressBalance.java:60-87 | sorts the array in place: afterwards it holds the stable sort of its old contents, sorted and a permutation of them |
| `AddressBalance.Gather` | src/main/java/wtf/harvest/btcops/AddressBalance.java:47-54 | the reference walk of the loop: a failure always names a candidate whose address cannot be extracted |
| `AddressBalance.WalkOrderPermutes` | src/main/java/wtf/harvest/btcops/AddressBalance.java:40-44 | the walk visits each candidate once: in the given order when the target is MAX_MONEY, else sorted by the comparator |
| `AddressBalance.SelectSpecMeaning` | src/main/java/wtf/harvest/btcops/AddressBalance.java:33-58 | a failure names a candidate whose address cannot be extracted; a success gathers only eligible candidates, and nothing with total 0 when the target is 0 or less |
| `AddressBalance.GatherIsEligiblePrefix` | src/main/java/wtf/harvest/btcops/AddressBalance.java:47-54 | the picks are exactly the eligible outputs of a prefix of the walk, all with extractable addresses, and the walk stops early only once the total has reached the target |
| `AddressBalance.PickedAreEligible` | src/main/java/wtf/harvest/btcops/AddressBalance.java:47-57 | every picked output is a candidate that passes shouldSelect, and the total is at most the value of all eligible candidates |
| `AddressBalance.NonPositiveTargetSelectsNothing` | src/main/java/wtf/harvest/btcops/AddressBalance.java:47-49 | a target of 0 or less selects nothing, with total 0, and cannot fail |
| `AddressBalance.GatherMinimal` | src/main/java/wtf/harvest/btcops/AddressBalance.java:48-54 | the total just before the last pick was below the target |
| `AddressBalance.ShortfallPicksAll` | src/main/java/wtf/harvest/btcops/AddressBalance.java:55-57 | a total below the target is a normal return in which every eligible candidate was picked |
| `AddressBalance.ShortSupplyPicksAll` | src/main/java/wtf/harvest/btcops/AddressBalance.java:47-57 | when all addresses are extractable and the eligible value is below the target, all eligible candidates are picked |
| `AddressBalance.GatherFailsIff` | src/main/java/wtf/harvest/btcops/AddressBalance.java:48-54 | select fails exactly when the walk reaches, with the total still below the target, an output whose address cannot be extracted |
| `AddressBalance.GatherSettled` | src/main/java/wtf/harvest/btcops/AddressBalance.java:49 | once the total reaches the target or a failure occurs, later candidates change nothing |
| `AddressBalance.GatherStep` | src/main/java/wtf/harvest/btcops/AddressBalance.java:48-54 | one loop iteration: break when the target is reached, propagate a failure, else pick the output when shouldSelect allows it |
| `AddressBalance.PicksInPriorityOrder` | src/main/java/wtf/harvest/btcops/AddressBalance.java:40-54 | below MAX_MONEY the picked outputs come out in comparator order |
| `AddressBalance.AllMoneyIsBalance` | src/main/java/wtf/harvest/btcops/AddressBalance.java:40-44 | with target MAX_MONEY the candidates are walked unsorted, and when every candidate's address can be extracted and their eligible value is below MAX_MONEY, the result is all eligible outputs and their total |
| `AddressBalance.BalanceSample` | src/main/java/wtf/harvest/btcops/AddressBalance.java:40-57 | a balance query over outputs of 10, 5 and 5 at depths 1, 10 and 10 returns the two deep outputs with total 10 |
| `AddressBalance.AddressBalance.constructor` | src/main/java/wtf/harvest/btcops/AddressBalance.java:29-31 | the selector keeps the queried address |
| `AddressBalance.AddressBalance.Select` | src/main/java/wtf/harvest/btcops/AddressBalance.java:33-58 | copies and (unless the target is MAX_MONEY) sorts the candidates, walks them and returns the walk's total and set of picks, or its failure |
| `AddressBalance.AddressBalance.Walk` | src/main/java/wtf/harvest/btcops/AddressBalance.java:47-57 | the loop over the copied candidates returns `SelectFrom` of them: the walk's total and set of picks, or its failure |
| `Arguments.Message` | src/main/java/wtf/harvest/btcops/Arguments.java:50-125 | the parse failure (lines 123-125) quotes the offending argument between `'` marks; the absent failure (the text of lines 50-51, formatted at 73-75, 87-89 and 101-103) names the missing argument at a fixed place; the two texts start with different letters |
| `Arguments.MessageIdentifiesError` | src/main/java/wtf/harvest/btcops/Arguments.java:50-51 | two failures carry the same message exactly when they are the same failure |
| `Arguments.KeyRun` | src/main/java/wtf/harvest/btcops/Arguments.java:119 | the key group is the longest run of `[a-z-]` characters: all of them are key characters and the next one is not |
| `Arguments.ParseArg` | src/main/java/wtf/harvest/btcops/Arguments.java:119-127 | every match has a key of `[a-z-]` characters and, when present, a non-empty value free of line terminators (`ParseArgIff` gives both directions) |
| `Arguments.ParseArgIff` | src/main/java/wtf/harvest/btcops/Arguments.java:119-130 | an argument matches exactly when it is `--key` or `--key=value` with a non-empty `[a-z-]` key and a non-empty value without line terminators, and then it parses to that key and value |
| `Arguments.ParseArgRoundTrip` | src/main/java/wtf/harvest/btcops/Arguments.java:119-130 | every argument that matches is the rendering of what it parses to |
| `Arguments.EmptyValueRejected` | src/main/java/wtf/harvest/btcops/Arguments.java:119-126 | `--key=` with an empty value does not match |
| `Arguments.BadKeyRejected` | src/main/java/wtf/harvest/btcops/Arguments.java:119-126 | a key with a character outside `[a-z-]` (an upper-case letter, a digit) or an empty key does not match, with or without a value |
| `Arguments.ValueAfterFirstEquals` | src/main/java/wtf/harvest/btcops/Arguments.java:127-130 | the value is the text after the first `=`, with that `=` dropped and later `=` kept |
| `Arguments.ParseNetSample` | src/test/java/wtf/harvest/btcops/ArgumentsTest.java:43-50 | `--net=test3` parses to key net and value test3 |
| `Arguments.Collect` | src/main/java/wtf/harvest/btcops/Arguments.java:116-134 | the reference result of asMap: a failure names an argument of the command line that does not match |
| `Arguments.CollectSucceedsIff` | src/main/java/wtf/harvest/btcops/Arguments.java:120-126 | parsing succeeds exactly when every argument matches |
| `Arguments.CollectReportsFirstMismatch` | src/main/java/wtf/harvest/btcops/Arguments.java:120-126 | a failure reports "can't parse this argument" for the first argument that does not match |
| `Arguments.CollectFailureSettled` | src/main/java/wtf/harvest/btcops/Arguments.java:122-126 | after the first mismatch, later arguments change nothing |
| `Arguments.CollectStep` | src/main/java/wtf/harvest/btcops/Arguments.java:120-132 | one loop iteration: fail on a mismatch, else enter the key and append the value |
| `Arguments.Record` | src/main/java/wtf/harvest/btcops/Arguments.java:128-131 | computeIfAbsent then add yields `AddArg`: the key is present and its list gains the value when there is one (`AddArgAt`: other keys keep their lists) |
| `Arguments.AddArgAt` | src/main/java/wtf/harvest/btcops/Arguments.java:127-131 | entering an argument adds its key and appends its value, if any, to that key's list alone |
| `Arguments.CollectKey` | src/main/java/wtf/harvest/btcops/Arguments.java:127-131 | a key is in the map exactly when some argument carries it, with or without a value, and maps to the values given for it in argument order |
| `Arguments.CollectContents` | src/main/java/wtf/harvest/btcops/Arguments.java:116-134 | the same for all keys at once, together with success exactly when every argument matches |
| `Arguments.NoMentionNoValues` | src/main/java/wtf/harvest/btcops/Arguments.java:127-131 | a key that no argument carries has no values |
| `Arguments.MentionsSomeArgument` | src/main/java/wtf/harvest/btcops/Arguments.java:128 | a key is mentioned exactly when some argument matches and carries it |
| `Arguments.RepeatedKeyAccumulates` | src/main/java/wtf/harvest/btcops/Arguments.java:128-131 | a key given repeatedly maps to all of its values in argument order |
| `Arguments.CollectEmpty` | src/main/java/wtf/harvest/btcops/Arguments.java:118 | parsing no arguments gives the empty map |
| `Arguments.AsMap` | src/main/java/wtf/harvest/btcops/Arguments.java:116-134 | the loop over the arguments returns the map of `Collect`, or its failure |
| `Arguments.NewArguments` | src/main/java/wtf/harvest/btcops/Arguments.java:62-64 | construction succeeds exactly when every argument matches, and holds the parsed map |
| `Arguments.Arguments.First` | src/main/java/wtf/harvest/btcops/Arguments.java:71-78 | the first value of the key; "absent" when the key is missing; an index failure when its list is empty |
| `Arguments.Arguments.Net` | src/main/java/wtf/harvest/btcops/Arguments.java:71-78 | net() returns the first value of net; an absent key fails with "Required command line argument net is absent"; a key with an empty list fails on get(0) |
| `Arguments.Arguments.Data` | src/main/java/wtf/harvest/btcops/Arguments.java:85-92 | data() returns the first value of data; an absent key fails with "Required command line argument data is absent"; a key with an empty list fails on get(0) |
| `Arguments.FirstOfCommandLine` | src/main/java/wtf/harvest/btcops/Arguments.java:71-92 | net() and data() in terms of the command line: absent when no argument carries the key, an index failure when only bare `--key` arguments do, else the first value given |
| `Arguments.Arguments.Discovery` | src/main/java/wtf/harvest/btcops/Arguments.java:99-106 | the whole list of the key, possibly empty; an absent key fails with "Required command line argument discovery is absent" |
| `Arguments.DiscoveryOfCommandLine` | src/test/java/wtf/harvest/btcops/ArgumentsTest.java:63-84 | discovery() returns every value given for discovery, in argument order |
| `Arguments.NetSample` | src/test/java/wtf/harvest/btcops/ArgumentsTest.java:43-50 | `--net=test3` gives net() the value test3 |
| `Arguments.EmptyCommandLineAbsent` | src/test/java/wtf/harvest/btcops/ArgumentsTest.java:86-111 | with no arguments every accessor reports its key absent, with the messages "Required command line argument net is absent", and likewise for data and discovery |

## Left out

- `AddressBalance.AddressBalance.Select`: the running total of `Walk` is a Java `long`, and the model does not wrap it at 2^63. Each output is worth at most MAX_MONEY, so the sum of at most 4,392 outputs cannot overflow. The sum of real outputs is also bounded by the money supply.
- `OutputSort.SortOutputs`: `Collections.sort` is TimSort, while the model uses a stable insertion sort. Under a total preorder, any two stable sorts produce the same list, but that uniqueness is not proved here.
- Output values are `nat`. bitcoinj also admits the value −1 ("negative satoshi") for outputs, which the model does not represent.
- Address parsing, network parameters and `Sha256Hash.toBigInteger` are abstracted to an optional address and a `nat` hash. `e.printStackTrace()` is logging and is left out.
- The text of the `IndexOutOfBoundsException` from `get(0)` depends on the Java runtime. `NoValue` carries no message.
- `Bot.java`, `BtcOps.java`, `Request.java`, `Balance.java`, `db/PgPendingRequests.java`, `db/PgWaitingRequests.java`, `tk/TkSend.java`, `tk/TkApp.java`, `tk/TkBalanceTotal.java`, `Params.java` and `PendingRequests.java` are not part of this model. They are wallet, peer-network, database, HTTP and notification plumbing. Request status changes are bare SQL statements with no transition function to model.
