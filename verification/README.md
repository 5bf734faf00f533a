# Mototáxi dispatch panel: ranking engine

A Dafny model of the part of `painel/index.php` that decides what the
dispatch panel shows. On each refresh the page does the following:

- It reads seven AstDB listings (`database show taxi/...`) into maps keyed by
  agent extension: name, login time, base, location, active ride client,
  ride start and ride base.
- It reads the dispatch queue `taxi/line` (`"41|42|43"`) into a map from
  agent to queue position.
- It decides which agents to show: a configured roster or, when the roster
  is empty, every agent id seen as a key of any listing.
- It ranks the agents with a `usort` comparator: idle logged-in agents
  first, then agents in a ride, then offline agents. Idle agents at base 40
  or 50 come before idle agents elsewhere. Agents at base go by queue
  position, then by login time. Every chain ends with the numeric id.
- It builds one table row per agent, with the status pill and the three
  counters.
- It prints how long ago an agent logged in or started a ride (`fmt_age`).

The modules follow that pipeline:

- `Text`: `trim`, `explode`/`implode`, `preg_replace('/\D+/', '')`, the
  `(int)` cast and `%d`/`%02d`.
- `Listing`: `db_show_prefix`.
- `Queue`: `$line_list` and `$linePos`.
- `Agents`: the snapshot and the per-agent values the comparator computes.
- `Universe`: `$agents`.
- `Ranking`: the comparator and the sort.
- `Rows`: `$rows`, the status pill and the counters.
- `Age`: `fmt_age`.
- `Panel`: one whole refresh.
- `Scenarios`: small dispatch situations.

The comparator is modelled as written, with its nested branches. It is
proved equal to an independent reference: the lexicographic order of a
five-part integer key (group, sub-group, queue position, timestamp, numeric
id). From that the model derives:

- the comparator is antisymmetric and transitive;
- it returns 0 only for agents with the same numeric id;
- each dispatch rule holds on its own;
- with canonical ids, exactly one sorted order exists, so the table does
  not depend on the order `usort` received the agents in.

Some behaviour of the code is easy to misread. The model follows the code:

- A queue that names an agent twice ranks it by its last occurrence, since
  the loop overwrites `$linePos[$ag]`.
- A configured roster is used verbatim, not reduced to digits.
- An agent with an active ride but no numeric login is offline for the
  ranking but shows the "EM CORRIDA" pill.
- The placeholder name is `"Agente <id>"`.
- `[^ ]+` accepts a TAB, which trim() then removes, so a matching listing
  line can store its value under the empty key. Discovered agent ids are
  never empty, so such an entry only matters to a roster that lists "".
- `\s*` before the value also swallows a leading form feed, which trim()
  would keep. A printed line therefore reads back as its value only when
  the value does not start with a regex space.
- `$` in `/^(40|50)$/` also accepts `"40\n"`. This is modelled literally
  and proved irrelevant, because listing values are trimmed.

## Model

| member | source | states |
|---|---|---|
| Text.Trim | painel/index.php:35 | trim() returns the infix left once trim() characters are removed from both ends. Only trim() characters are removed, and the result neither starts nor ends with one. |
| Text.TrimmedIsFixed | painel/index.php:42-43 | trim() leaves a string that has no trim() character at either end unchanged. |
| Text.StripNonDigits | painel/index.php:84 | `preg_replace('/\D+/', '', ...)` yields only digits, is never longer than its input, and leaves a digit string unchanged. |
| Text.StripNonDigitsKeepsDigits | painel/index.php:84 | Every digit of the input survives as often as it occurs, and nothing else does. |
| Text.StripNonDigitsConcat | painel/index.php:96 | Deleting non-digits distributes over concatenation, so the digits keep their order. |
| Text.Split | painel/index.php:80 | explode() yields at least one piece and no piece contains the delimiter. implode() of the pieces gives back the input. |
| Text.SplitJoin | painel/index.php:80 | explode() undoes implode() whenever no piece contains the delimiter. |
| Text.IntOf | painel/index.php:116-117 | `(int)` of a digit string is its decimal value. |
| Text.Decimal | painel/index.php:61-62 | `%d` prints a canonical digit string (no leading zero) whose value is the number. The string has one digit exactly when the number is below 10, and at most two below 100. |
| Text.Pad2 | painel/index.php:61-62 | `%02d` prints at least two digits whose value is the number. Below 100 it prints exactly two. A longer result has no leading zero. |
| Text.DecimalOfValue | painel/index.php:61-62 | Reading a canonical digit string and printing it with `%d` gives back the same string. |
| Text.CanonicalValuesDistinct | painel/index.php:100-103 | Distinct canonical ids have distinct numeric values. |
| Listing.SplitLines | painel/index.php:35 | `preg_split("/\r?\n/")` yields one line per LF-separated piece. Line i is piece i, minus one trailing CR unless it is the last piece. No line holds an LF. |
| Listing.SplitLinesOfLf | painel/index.php:35 | Lines joined by LF split back into the same lines, provided none but the last ends in CR. |
| Listing.SplitLinesOfCrlf | painel/index.php:35 | Lines joined by CRLF split back into the same lines, with the CRs gone. |
| Listing.MatchLine | painel/index.php:41 | The line regex matches exactly when the declarative line shape admits some match. The reported match takes the most spaces after the slash and, among those, the longest key, as PCRE's greedy backtracking does. |
| Listing.ParseLine | painel/index.php:41-44 | A line yields an entry exactly when the regex matches. The key holds no space, and key and value are trimmed. |
| Listing.ParseLineRoundTrip | painel/index.php:38-44 | The store's line `/<prefix>/<k> : <v>` parses back to the entry (k, v). This holds when k is non-empty, has no space and is trimmed, v is trimmed, and neither the prefix nor v starts with a regex space. |
| Listing.ParsePaddedLine | painel/index.php:41-44 | A line `/<prefix>/<k>`, then n >= 1 spaces, `:`, m spaces, v and t trailing spaces, parses back to the entry (k, v) for every n, m and t. The conditions on prefix, k and v are those of ParseLineRoundTrip. |
| Listing.LeadingFormFeedIsLost | painel/index.php:41-43 | A printed value that starts with a form feed reads back without it: `\s*` takes the form feed, which trim() would have kept. |
| Listing.TabKeyIsEmpty | painel/index.php:41-43 | The line `/taxi/nome/<TAB>:x` matches, and its key trims to the empty string. |
| Listing.CollectLastWins | painel/index.php:37-45 | A key is stored exactly when some line yields it. When several lines yield the same key, the last line's value is kept. |
| Listing.ParseListing | painel/index.php:33-48 | A key is stored exactly when some line of the trimmed output yields it, and it holds the value of the last such line. Keys hold no space, and keys and values are trimmed. Output made only of whitespace, such as a failed command, gives the empty map. |
| Listing.ParseListingOfOneLine | painel/index.php:33-48 | A listing made of one printed line `/<prefix>/<k> : <v>` is the map holding just k with value v. This holds when k is non-empty, has no space and is trimmed; v is non-empty, trimmed and does not start with a regex space; the prefix does not start with a regex space; and none of prefix, k and v holds a line feed. |
| Queue.KeepTruthy | painel/index.php:80 | array_filter keeps exactly the strings other than "" and "0". |
| Queue.KeepTruthyConcat | painel/index.php:80 | Filtering a concatenation concatenates the filtered halves, so array_filter keeps the pieces in their order. |
| Queue.QueuePieces | painel/index.php:78-81 | `$line_list` is empty for an empty value. Otherwise it is the trimmed pieces between the bars with "" and "0" dropped, in order. No piece is padded or holds a bar. |
| Queue.Positions | painel/index.php:82-86 | Each non-empty id maps to an index holding that id. No later index holds it, so the last occurrence wins. Empty ids are never mapped. |
| Queue.QueuePositions | painel/index.php:77-86 | `$linePos` maps exactly the non-empty digit strings of the kept pieces. Each maps to the index of a piece with those digits, and no later piece has them. An empty queue maps nothing. |
| Queue.QueueOfTwo | painel/index.php:77-86 | The queue value a, bar, b, for two different non-zero digit ids a and b, maps a to 0 and b to 1. |
| Queue.TwoAgentQueue | painel/index.php:77-86 | The queue value 41, bar, 42 maps 41 to 0 and 42 to 1. |
| Agents.Classify | painel/index.php:112-117 | The agent is logged in exactly when its login stamp is numeric, and then that stamp is its login time. It is in a ride exactly when its client entry is non-empty. Location and base are the stored entries, or "" when missing. A missing login or ride stamp reads as 0. The id is the `(int)` of the agent. The agent has a position exactly when it is in `$linePos`, and then it is that position. |
| Agents.Group | painel/index.php:135-136 | Group 0 is logged in and idle, 1 is logged in and in a ride, 2 is not logged in. These three cases partition all states. |
| Agents.BaseCodeOfTrimmed | painel/index.php:128-129 | On a trimmed value, the base-code pattern matches exactly "40" and "50". |
| Agents.AtBaseOfSnapshot | painel/index.php:127-129 | An agent is "at base" exactly when it is logged in and has no active ride. Its location must be absent or other than "rua", and its stored base must match the 40/50 pattern. |
| Universe.KeyDigits | painel/index.php:96-98 | The ids of one listing are exactly the non-empty digit strings of its keys. |
| Universe.Discovered | painel/index.php:95-100 | The discovered ids are exactly the non-empty digit strings of keys of some listing. |
| Universe.AgentSet | painel/index.php:89-102 | A non-empty roster gives exactly its members. Otherwise the result is exactly the discovered ids, all digit strings. |
| Ranking.Spaceship | painel/index.php:138 | `<=>` returns -1, 0 or 1, negative exactly for "less" and 0 exactly for "equal". |
| Ranking.CompareStates | painel/index.php:131-170 | The closure body returns -1, 0 or 1. Agents in different groups compare by group alone. It returns 0 only for equal numeric ids. |
| Ranking.Compare | painel/index.php:106-171 | The comparator returns -1, 0 or 1, and 0 only for agents with the same numeric id. |
| Ranking.CompareIsKeyOrder | painel/index.php:106-171 | The nested branches of the comparator compute exactly the lexicographic order of the reference keys. |
| Ranking.CompareAntisymmetric | painel/index.php:106-171 | Swapping the two agents negates the answer. |
| Ranking.CompareTransitive | painel/index.php:106-171 | "Ranks at or before" is transitive. |
| Ranking.CompareZeroSameId | painel/index.php:106-171 | The comparator returns -1, 0 or 1, and returns 0 only for agents with the same numeric id. |
| Ranking.GroupsInOrder | painel/index.php:135-138 | A lower group always ranks first, whatever the other fields. Agents in ranked order have nondecreasing groups. |
| Ranking.RideWithoutLoginIsOffline | painel/index.php:112-136 | An agent in a ride without a numeric login is in the offline group and ranks after every logged-in agent. |
| Ranking.BaseBeforeElsewhere | painel/index.php:143-145 | Among idle agents, one at base ranks before one elsewhere, regardless of login time. |
| Ranking.AtBaseOrder | painel/index.php:147-156 | Two agents at base compare by queue position, then login time, then numeric id. |
| Ranking.QueuedBeforeUnqueued | painel/index.php:149-151 | At base, an agent queued at a position below 99999 ranks before an unqueued one, whose position is the 99999 sentinel. |
| Ranking.ElsewhereOrder | painel/index.php:157-160 | Two idle agents away from base compare by login time, then numeric id. |
| Ranking.RideOrder | painel/index.php:164-167 | Two agents in a ride compare by ride start, then numeric id. |
| Ranking.OfflineOrder | painel/index.php:169-170 | Two offline agents compare by numeric id only. |
| Ranking.Insert | painel/index.php:106 | Inserting into a sorted sequence keeps it sorted and adds exactly the one agent. |
| Ranking.Rank | painel/index.php:102-106 | The sorted `$agents` is a permutation of the agent set: each agent appears exactly once, in the comparator's order. |
| Ranking.SortedUnique | painel/index.php:103-106 | When no two agents share a numeric id, two sorted arrangements of the same agents are equal. The initial `sort(SORT_NUMERIC)` and usort's input order therefore do not matter. |
| Rows.BuildRow | painel/index.php:176-203 | A row is logged in and in a ride exactly as the agent is. A logged-in row carries the numeric login stamp. A row in a ride carries the ride stamp, or 0 when missing, and the ride base, or "-" when missing. A state the agent is not in reads as timestamp 0 and ride base "-". A row has a client exactly when it is in a ride. It has a queue position exactly when the agent is queued, and then it is the agent's `$linePos` entry. Missing names, locations and bases fall back to their placeholders. |
| Rows.RowMatchesRanking | painel/index.php:178-189 | The login, ride, timestamps and queue position of a row are the values the comparator ranked the agent by. |
| Rows.BuildRows | painel/index.php:174-204 | There is one row per ranked agent, in ranked order. |
| Rows.RowsOfSortedAscend | painel/index.php:174-204 | Rows built from a sorted ranking list idle agents, then agents in a ride, then offline agents. |
| Rows.StatusOf | painel/index.php:269-276 | The pill is "EM CORRIDA" exactly for rows in a ride, "ONLINE" exactly for logged-in rows without a ride, and "ENCERRADO" exactly for the rest. |
| Rows.StatusAndGroup | painel/index.php:270-276 | "ONLINE" is shown exactly for group 0. For logged-in agents, "EM CORRIDA" is shown exactly for group 1. "ENCERRADO" implies group 2, and in group 2 the pill says "EM CORRIDA" exactly when a ride is active. |
| Rows.CountRows | painel/index.php:242-246 | "Logados" is the number of logged-in rows and "Offline" the number of the others. "Em corrida" is the number of rows in a ride. "Logados" plus "Offline" is the number of rows. |
| Rows.LoggedArePrefix | painel/index.php:242-246 | In a table whose groups ascend, the logged-in rows are exactly the first "Logados" rows. |
| Rows.CountsOfPanel | painel/index.php:242-246 | In the panel, the agent in row i is logged in exactly when i is below the "Logados" counter. |
| Age.ClockOf | painel/index.php:57-60 | Hours, minutes and seconds decompose `max(0, seconds)`, with minutes and seconds below 60. |
| Age.FmtAge | painel/index.php:56-63 | The text is two pieces joined by one space. From one hour on it is `<n>h <dd>m`, and below an hour `<n>m <dd>s`. In both, n has no leading zero and dd is exactly two digits below 60. The pieces are the hours and minutes, or the minutes and seconds, of the clamped age. |
| Age.AgeRoundTrip | painel/index.php:56-63 | The text of fmt_age reads back to the clamped age. Below an hour it is exact; from an hour on it is the age rounded down to the minute. |
| Age.FmtAgeDistinctBelowHour | painel/index.php:61-62 | Below an hour, different ages print differently. |
| Age.NegativeAgeIsZero | painel/index.php:57 | A negative age, such as a stamp in the future, prints as "0m 00s". |
| Panel.ReadSnapshot | painel/index.php:66-86 | Each of the seven maps stores exactly the keys its listing's lines yield, with the last line's value, and is clean. `$linePos` maps digit ids to the index of their last kept queue piece. An empty queue value queues nobody. |
| Panel.SilentStoreIsEmpty | painel/index.php:19-23 | When every store command prints nothing, the snapshot is empty. |
| Panel.BuildPanel | painel/index.php:88-204 | A refresh produces one row per agent of the universe, each agent once. The rows are in the comparator's order and their groups ascend. |
| Panel.RankingIsUnique | painel/index.php:100-106 | With canonical ids, every sorted arrangement of the agents is the same sequence. |
| Panel.SilentStoreWithRoster | painel/index.php:91-92 | With an empty snapshot and a roster, every roster member is shown, is offline, and ranks by numeric id. |
| Panel.SilentStoreWithoutRoster | painel/index.php:93-100 | With an empty snapshot and no roster, nobody is shown. |
| Scenarios.QueueOrderAtBase | painel/index.php:147-151 | Two agents are logged in at bases 40 and 50, and the queue value is 41, bar, 42. Agent 41 ranks first even though it logged in later. |
| Scenarios.BaseBeatsStreet | painel/index.php:143-145 | An idle agent at base ranks before an idle agent on the street who logged in earlier. |
| Scenarios.EarlierRideLeads | painel/index.php:164-165 | Of two agents in a ride, the one whose ride started earlier ranks first. |

## Left out

- `asterisk_rx` (lines 19-23) runs a shell command. The model takes the text each command printed as a parameter of `RawSnapshot`. A failed command is the empty string.
- `db_get_value` (lines 25-29) extracts the `Value:` line of `database get`. The model takes the value of `taxi/line` directly.
- `fmt_dt` (lines 51-54) and `date()` are left out: they format clock time in a time zone.
- `time()` (line 66) is left out. Ages enter `Age.FmtAge` as the already-subtracted integer `$now - $ts`.
- The HTML (lines 206-314) is left out, except the status pill and the counters.
- Agents.Classify: `is_numeric` is modelled as "non-empty ASCII digits", and `(int)` as the value of the leading digit run. Signs, surrounding whitespace, decimals, exponents and 64-bit overflow are not modelled. Listing values are trimmed, which removes most of the difference.
- Text.IntOf: integers are unbounded, and PHP's saturation at `PHP_INT_MAX` is not modelled.
- PHP turns numeric-string array keys into integers (lines 44, 85, 92 and 97). On canonical digit strings this is a bijection, so the model keeps every key as a string.
- `sort($agents, SORT_NUMERIC)` (line 103) is not modelled as a step of its own. `Ranking.Rank` starts from the set of agents, and `Ranking.SortedUnique` shows that the input order does not matter when ids are canonical. For non-canonical ids with equal values, such as "7" and "07", the model does not fix the order of the tied pair.
- `preg_quote` of the prefix (line 41) is taken as the literal prefix text. The seven prefixes hold no regex metacharacter other than `/`, and the delimiter is `#`.
- Listing.MatchLine: only lines without LF are considered, because `preg_split` never produces one. The trailing `\s*(.*)$` therefore adds no condition.
