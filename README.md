# gobuffet, modelled in Dafny

gobuffet is a small web shop for a restaurant ("Rock Buffet"). Customers
order from a menu and an administrator edits it. This project models three
parts of it.

- **Prices and item keys.** `Price.Set` parses a price into a whole number
  of minor units. `Price.String` formats such a number with two fractional
  digits. `ParseItem` turns a command-line key into an id or a name.
- **The item store.** It keeps each menu item in two places: a row of the
  `items` table and, optionally, an image file under `img/`. There is no
  shared transaction between the two, so every operation writes the new
  file first, then runs its SQL, and removes files to compensate or clean
  up. Both versions are modelled:
  - the current one in `item/util/util.go`: `Add`, `Del`, `Mod`, `Get`;
  - the older one in `util/util.go`: `ItemAdd`, `ItemMod`, `ItemDel`.
- **The storefront and the admin handlers of `serve/serve.go`.**
  - `stoi` reads the integers of the order form.
  - `handleRoot` turns posted fields into order lines, lists the items
    (`getItems`) and computes line totals and the grand total.
  - `itemAdd`, `itemMod` and `itemDel` validate the admin forms.

The database and the image directory are abstract.
- `Storage.Backend` is a class with two fields: `table`, the committed rows,
  and `files`, the set of paths that exist.
- Each external step is a method of `Backend`: copying an upload, removing a
  file, running a statement, committing.
- Whether a step fails, the clock stamp in a generated name and the next id
  are inputs, gathered in `Storage.Env`.
- Statements keep the structure the Go code builds: column lists, `col = $n`
  clauses and argument lists. `Sql.Run` executes them as PostgreSQL would
  through pgx:
  - every placeholder `$1..$n` must be referenced, and no other;
  - `id` and `name` are unique; `name` and `price` are NOT NULL;
  - scanning NULL into a Go `string` is an error.
- The store's consistency rule is `Storage.Consistent`: every image a row
  names exists, and no two rows share an image. `img/` is the image
  directory, never a file, so no row names the empty image. The lemmas and method
  contracts below say which operations keep it and under which faults.

Go's `int` is 64 bits wide. `Strconv.Int` is that range, and the checkout
arithmetic wraps through `Strconv.Wrap`. `strconv.Atoi` and `strconv.Itoa`
are modelled in `Strconv`, and `path.Base` and `path.Clean` in `Paths`.

Modules, one per file: `Wrappers`, `Strconv`, `Paths`, `Prices`, `ItemKeys`,
`Sql`, `Storage`, `ItemStore`, `LegacyStore`, `Storefront`, `Admin`.

## Model

| member | source | states |
|---|---|---|
| Strconv.DigitChar | item/util/util.go:70 | the character produced for a digit is a decimal digit with that value |
| Strconv.Pow10 | item/util/util.go:55-56 | powers of ten are positive |
| Strconv.DigitRun | item/util/util.go:56 | the longest digit prefix: all of it is digits and the next character is not |
| Strconv.ParseUint | item/util/util.go:56 | a successful unsigned parse had a non-empty all-digit input and returns its value, at most 2^64-1 |
| Strconv.Atoi | item/util/util.go:56 | strconv.Atoi succeeds only on an optional sign followed by digits |
| Strconv.Digits | item/util/util.go:70 | the decimal digits of n: digits only, value n, no leading zero, one digit below 10 and at most two below 100 |
| Strconv.Itoa | item/util/util.go:70 | strconv.Itoa yields digits with at most a leading minus |
| Strconv.ValueAppend | item/util/util.go:56 | the value of concatenated digit strings is the first value shifted by the second's length, plus the second |
| Strconv.Distribute | item/util/util.go:56 | the arithmetic step used when a digit is appended |
| Strconv.ValueBound | item/util/util.go:56 | a k-digit string is worth less than 10^k |
| Strconv.ParseUintDigits | item/util/util.go:56 | every digit string within 64 bits parses to its value |
| Strconv.AtoiItoa | serve/serve.go:476 | Atoi(Itoa(n)) == n for every 64-bit n |
| Strconv.AtoiDigits | item/util/util.go:56 | a digit string parses to its value when that fits an int, otherwise it is a range error |
| Strconv.Wrap | serve/serve.go:579-583 | 64-bit wrap-around leaves values in range unchanged |
| Strconv.WrapCongruent | serve/serve.go:579-583 | wrapping changes a value by a multiple of 2^64 |
| Strconv.WrapUnique | serve/serve.go:579-583 | the wrapped value is the only in-range value congruent to x |
| Strconv.WrapAdd | serve/serve.go:581-583 | wrapping after every addition equals wrapping once at the end |
| Prices.DotIndex | item/util/util.go:47 | the first '.' of a string, or its length when there is none |
| Prices.PriceGroups | item/util/util.go:47-50 | the two submatches of priceRE split the string into a valid integer part and fraction |
| Prices.DotIndexAt | item/util/util.go:47 | a position holding the first dot is the one DotIndex finds |
| Prices.PriceGroupsMatch | item/util/util.go:47-50 | PriceGroups succeeds exactly on the strings priceRE matches, and its split is the only valid one |
| Prices.Cents | item/util/util.go:54-55 | the fraction right-padded to two digits is below 100 |
| Prices.Set | item/util/util.go:49-62 | succeeds iff priceRE matches and the amount fits an int; stores integer part × 100 + padded fraction; on failure the old price is kept |
| Prices.Padded | item/util/util.go:54-55 | the padded fraction is two digits whose value is Cents |
| Prices.AtoiAmount | item/util/util.go:56-59 | Atoi of the joined groups is the amount, or a range error when it exceeds the int range |
| Prices.Zeros | item/util/util.go:55 | strings.Repeat("0", k) is k zero digits |
| Prices.StringRenders | item/util/util.go:64-86 | String(p) is digits, one '.', two trailing digits, with '-' iff p < 0; for MinInt the negation wraps and the text starts "-0.0-" |
| Prices.NegatedRenders | item/util/util.go:80-85 | prefixing '-' to a rendered body gives a rendering of the negative price |
| Prices.StringBody | item/util/util.go:65-78 | the unsigned body renders the absolute value and does not start with '-' |
| Prices.OneDigitBody | item/util/util.go:72-73 | below 10 the body is "0.0" and the digit |
| Prices.TwoDigitBody | item/util/util.go:74-75 | below 100 the body is "0." and two digits |
| Prices.LongBody | item/util/util.go:76-77 | from 100 on, a dot is inserted before the last two digits |
| Prices.RenderedGroups | item/util/util.go:47-50 | what String renders for n >= 0 matches priceRE with groups worth n |
| Prices.SetString | item/util/util.go:47-86 | round trip: Set(String(n)) == n for every 0 <= n within int range |
| Prices.SetAccepts | item/util/util.go:47-61 | any valid integer part and fraction parse to their amount |
| Prices.SetRejects | item/util/util.go:50-53 | a string priceRE does not match is an error and the price is unchanged |
| Prices.SetAcceptExamples | item/util/util.go:49-61 | "3.5" parses to 350 |
| Prices.SetAcceptWhole | item/util/util.go:49-61 | "3" parses to 300 |
| Prices.SetAcceptCents | item/util/util.go:49-61 | "0.05" parses to 5 |
| Prices.SetRejectExamples | item/util/util.go:47-53 | "3.", "-1", "01", "3.555" and "" are rejected |
| Prices.StringExamples | item/util/util.go:64-86 | 5 → "0.05", 100 → "1.00", 500 → "5.00", -250 → "-2.50" |
| Paths.ImgPath | util/util.go:38-40 | ImgPath(base) is exactly "img/" followed by base |
| Paths.ImgPathInjective | util/util.go:38-40 | distinct image names have distinct paths |
| Paths.IndexOf | serve/serve.go:93 | the first occurrence of a character |
| Paths.SplitSlash | serve/serve.go:93 | splitting at '/' yields at least one element |
| Paths.CleanRooted | serve/serve.go:93 | path.Clean of a rooted path is rooted |
| Paths.IndexOfFirst | serve/serve.go:93 | the first occurrence lies after a prefix free of that character |
| Paths.SplitFirst | serve/serve.go:93 | splitting a/b yields a followed by the split of b |
| Paths.ResolveStep | serve/serve.go:93 | path.Clean keeps a plain element and drops an empty one |
| Paths.CleanImgPath | serve/serve.go:92-94 | for a name without '/', '.' or '..' segments the image URL is "/img/" + name |
| Paths.SplitImgPath | serve/serve.go:93 | "img/base" splits into "img" and base |
| Paths.ResolveImg | serve/serve.go:93 | "img" and a plain name survive path.Clean's resolution |
| Paths.CleanEmptyName | serve/serve.go:92-94 | an empty image name cleans to "/img" |
| Paths.LastElem | item/util/util.go:101 | the last path element: a suffix with no '/', preceded by '/' unless it is the whole path |
| Paths.TrimTrailingSlashes | item/util/util.go:101 | the path with its trailing slashes removed: a prefix, followed only by slashes, that does not end in '/' |
| Paths.TrimmedPrefix | item/util/util.go:101 | trimming keeps a prefix of the path and removes only slashes |
| Paths.Base | item/util/util.go:101 | path.Base is never empty, is "/" or free of '/', and is "." for "" |
| Paths.BaseIsLastElement | item/util/util.go:101 | for a path that is not all slashes, path.Base is the slash-free suffix of the trimmed path, preceded by '/' unless it is the whole trimmed path |
| Paths.BaseOfSlashes | item/util/util.go:101 | path.Base of a non-empty path of slashes only is "/" |
| Paths.SlashesTrimToEmpty | item/util/util.go:101 | trimming a path of slashes only leaves nothing |
| Paths.LastElemPlain | item/util/util.go:101 | the last element of a directory followed by a plain name is that name |
| Paths.BaseOfPlain | item/util/util.go:101 | the base of a directory followed by a plain name is that name |
| ItemKeys.CutColon | item/util/util.go:89 | strings.Cut at the first ':': found iff there is one, and the parts rebuild the input |
| ItemKeys.ParseItem | item/util/util.go:88-98 | an error only for an out-of-range number; an id result is Atoi of the key |
| ItemKeys.ParseItemName | item/util/util.go:89-90 | "name:X" → (-1, X) |
| ItemKeys.ParseItemId | item/util/util.go:91-92 | the decimal text of an int → that int |
| ItemKeys.ParseItemNumber | item/util/util.go:91-92 | every text Atoi accepts, signs and leading zeros included, addresses the id Atoi reads |
| ItemKeys.ParseItemNumberExamples | item/util/util.go:91-92 | "+5" is id 5 and "007" is id 7 |
| ItemKeys.ParseItemPlainName | item/util/util.go:95-96 | a key that is not a number and not "name:" is itself the name |
| ItemKeys.ParseItemOutOfRange | item/util/util.go:93-94 | an out-of-range number is an error |
| ItemKeys.ParseItemIdExample | item/util/util.go:91-92 | "42" → id 42 |
| ItemKeys.ParseItemNameExamples | item/util/util.go:89-96 | "bolt" → name "bolt"; "name:42" → name "42" |
| Sql.Phs | item/util/util.go:145-146 | the placeholders of a clause list, in order |
| Sql.Cols | item/util/util.go:284-285 | the columns of a clause list, in order |
| Sql.Matching | item/util/util.go:183-184 | SELECT … WHERE c1 OR c2 …: exactly the rows some condition holds for |
| Sql.NotMatching | item/util/util.go:197 | DELETE … WHERE …: exactly the rows no condition holds for are left |
| Sql.UpdateRows | item/util/util.go:284-285 | UPDATE keeps the number of rows |
| Sql.Clauses | item/util/util.go:216-219 | newArg numbers the k-th clause $k+1 |
| Sql.Values | item/util/util.go:216-219 | newArg appends the k-th argument |
| Sql.ClausesSnoc | item/util/util.go:128-132 | one more newArg/addArg appends one column, placeholder and argument |
| Sql.ClausesStep | item/util/util.go:216-219 | the lists a loop has built so far extend by one clause |
| Sql.RankedCons | item/util/util.go:124-144 | columns appended in a fixed order stay in that order |
| Sql.RankedDistinct | item/util/util.go:227-258 | columns in strict order are distinct |
| Sql.AssignAllEach | item/util/util.go:284-285 | assigning through placeholders equals assigning each value |
| Sql.AssignEachAppend | item/util/util.go:227-258 | assigning a concatenation is assigning its parts in turn |
| Sql.ClausesBind | item/util/util.go:260-267 | $1..$n plus $n+1 bind exactly n+1 arguments |
| Sql.ClausesBindAll | item/util/util.go:124-146 | the placeholders of n clauses are exactly $1..$n |
| Sql.ClausesAssignAll | item/util/util.go:145-146 | an INSERT's placeholders deliver each argument to its column |
| Sql.ClausesAssign | item/util/util.go:284-289 | with the WHERE argument appended the SET clauses still assign their own values |
| Sql.UpdateRowsApply | item/util/util.go:284-289 | UPDATE changes the addressed rows and no other |
| Sql.Run | item/util/util.go:145-147 | executing a statement on a keyed table yields a keyed table |
| Sql.KeyedAppend | item/util/util.go:145-147 | appending a row with a fresh id and name keeps ids and names unique |
| Sql.KeyedNotMatching | item/util/util.go:197 | deleting rows keeps ids and names unique |
| Sql.KeyedCons | item/util/util.go:197 | a row with a fresh id and name in front of a keyed table |
| Sql.Imgs | item/util/util.go:184-196 | the img column of the selected rows, in order |
| Sql.StrLeTotal | item/util/util.go:327-334 | the name order is total |
| Sql.StrLeTrans | item/util/util.go:327-334 | the name order is transitive |
| Sql.BeforeTotal | item/util/util.go:327-334 | the ORDER BY order is total |
| Sql.BeforeTrans | item/util/util.go:327-334 | the ORDER BY order is transitive |
| Sql.InsertSorted | item/util/util.go:337-338 | insertion adds exactly one row |
| Sql.SortRows | item/util/util.go:337-338 | ORDER BY permutes the rows |
| Sql.InsertSortedSorted | item/util/util.go:337-338 | inserting into a sorted list keeps it sorted |
| Sql.SortRowsSorted | item/util/util.go:337-338 | ORDER BY yields sorted rows |
| Storage.GeneratedName | item/util/util.go:101 | a generated name begins with the stamp and '_' and is longer than the stamp |
| Storage.GeneratedNameSuffix | item/util/util.go:101 | after the stamp and '_' comes path.Base of the upload: one non-empty element without a directory |
| Storage.GeneratedNamePlain | item/util/util.go:101 | an upload dir/name is stored as the stamp, '_' and name |
| Storage.Backend.constructor | item/util/util.go:122 | a backend over a given table and file set |
| Storage.Backend.CopyImg | item/util/util.go:100-120 | copyImg: on success the file exists and its name is returned; a failed create changes nothing; a failed copy removes the file |
| Storage.Backend.Remove | item/util/util.go:149 | os.Remove deletes exactly that path |
| Storage.Backend.Exec | item/util/util.go:145-147 | the statement's outcome, or a transient failure that changes nothing |
| Storage.Backend.Commit | item/util/util.go:290 | the staged rows become the table unless the commit fails |
| ItemStore.AddStmtShape | item/util/util.go:123-146 | Add's columns are name, price, then img and descr when given; placeholders $1..$k align with the arguments; it.ID is never used |
| ItemStore.AddAssigns | item/util/util.go:123-146 | the INSERT's row holds the given name, price, description and image |
| ItemStore.AddInserts | item/util/util.go:145-147 | the INSERT adds exactly that row, or fails on a clashing id or name |
| ItemStore.AddLists | item/util/util.go:123-144 | the cols/vals/args slices that addArg grows are the statement's lists |
| ItemStore.Add | item/util/util.go:122-155 | a failed copy issues no INSERT; a failed INSERT removes the copied file; success keeps it; consistency is preserved |
| ItemStore.AddStmt | item/util/util.go:124-146 | an INSERT whose columns start with name and price, one more for an image and one more for a description, with as many placeholders and arguments as columns |
| ItemStore.AddPreservesConsistency | item/util/util.go:134-152 | Add's outcome keeps rows and files consistent when the new image is fresh |
| ItemStore.AddKeepsConsistent | item/util/util.go:145-152 | appending a row whose image was just written keeps consistency |
| ItemStore.Picked | item/util/util.go:184 | the rows addressed by an id or a name in the lists |
| ItemStore.Remaining | item/util/util.go:197 | the rows addressed by neither list |
| ItemStore.WhereAnyOf | item/util/util.go:162-175 | one clause per id then per name, numbered $1..$n, and their OR selects exactly the addressed rows |
| ItemStore.AnyOfShape | item/util/util.go:165-183 | the OR of the built clauses holds exactly for the addressed rows |
| ItemStore.AnyOfHolds | item/util/util.go:165-183 | one row: the OR holds iff an id or a name addresses it |
| ItemStore.AddressedHolds | item/util/util.go:165-183 | an addressed row satisfies some clause |
| ItemStore.HoldsAddressed | item/util/util.go:165-183 | a row that satisfies some clause is addressed by that clause's id or name |
| ItemStore.MatchingAddressed | item/util/util.go:183-197 | SELECT picks and DELETE leaves exactly the addressed rows |
| ItemStore.PathsOf | item/util/util.go:188-196 | the image paths of the non-NULL names |
| ItemStore.ElemsPrefix | item/util/util.go:188-196 | the paths collected so far grow by one element |
| ItemStore.CollectPaths | item/util/util.go:188-196 | the rows.Next loop collects ImgPath of each non-NULL img, skipping NULL |
| ItemStore.RemoveEach | item/util/util.go:203-205 | removing every collected path |
| ItemStore.DoomedPaths | item/util/util.go:184-205 | the collected paths are exactly the images of the deleted rows |
| ItemStore.DelPreservesConsistency | item/util/util.go:197-205 | deleting rows and their images keeps consistency |
| ItemStore.DelCommitFailureLosesImages | item/util/util.go:201-205 | when the ignored commit fails, the images are removed anyway and a surviving row names a missing file |
| ItemStore.Del | item/util/util.go:157-208 | empty lists touch nothing; begin/select/delete errors remove no file; otherwise the addressed rows go and then their images, even if the commit fails |
| ItemStore.ItemOf | item/util/util.go:344-351 | a scanned row: id, name and price set; descr and img NULL read as absent |
| ItemStore.Listing | item/util/util.go:306-338 | the rows addressed (all rows for empty lists), sorted by the requested column |
| ItemStore.Get | item/util/util.go:306-354 | a failed query is an error; otherwise the listed rows as items, in order |
| ItemStore.ScanItems | item/util/util.go:344-352 | the rows.Next loop appends one item per row |
| ItemStore.Modified | item/util/util.go:284-289 | the UPDATE's table has as many rows |
| ItemStore.ModPairsNested | item/util/util.go:227-258 | the SET list grouped as its parts |
| ItemStore.ModRanked | item/util/util.go:227-258 | SET order is id, name, price, img, descr, and no column repeats |
| Sql.AssignEachOne | item/util/util.go:216-219 | assigning a single SET pair is that one assignment |
| ItemStore.ModChanges | item/util/util.go:227-258 | the SET list changes each given field; an empty img or descr clears it |
| ItemStore.ModChangesImage | item/util/util.go:239-258 | the img and descr clauses change only those columns |
| ItemStore.WhereAddresses | item/util/util.go:260-266 | the WHERE clause is id when id >= 0, otherwise name |
| ItemStore.ModRuns | item/util/util.go:260-289 | the UPDATE's outcome is the addressed row changed, or a rejection on a clash or an empty SET |
| ItemStore.Selected | item/util/util.go:276-277 | the rows the WHERE clause addresses |
| ItemStore.MatchingSelected | item/util/util.go:276-277 | a SELECT numbered $1 returns exactly the addressed rows |
| ItemStore.SelectedNone | item/util/util.go:276-277 | no addressed row, nothing selected |
| ItemStore.SelectedUnique | item/util/util.go:276-277 | a keyed table has at most one addressed row |
| ItemStore.ModSelectRejected | item/util/util.go:260-282 | as written, the SELECT reuses $len(set)+1 with one argument and is rejected whenever the image changes |
| ItemStore.ScanStringNull | item/util/util.go:276-281 | as written, scanning a NULL old image into a string is an error |
| ItemStore.ScanNullablePrior | item/util/util.go:275-282 | with $1 and a nullable scan the SELECT reads the addressed row's old image |
| ItemStore.RmImg | item/util/util.go:221-225 | rmImg removes the recorded path when there is one |
| ItemStore.RemoveNamed | item/util/util.go:292-294 | the old image is removed only when a non-empty name was read |
| ItemStore.Mod | item/util/util.go:210-297 | as written: no image change behaves as the UPDATE; any image change fails; a failed copy writes no row; compensation names the image directory "img/", which is no file, so the new file stays behind; consistency is kept |
| ItemStore.DistinctImages | item/util/util.go:290-294 | in a consistent table two rows never share an image |
| ItemStore.ModifiedAt | item/util/util.go:284-289 | the UPDATE changes the addressed row and leaves the others |
| ItemStore.ModKeepsConsistent | item/util/util.go:284-294 | a committed UPDATE with a fresh image, followed by removal of the old image, keeps consistency |
| ItemStore.ModKeepsFiles | item/util/util.go:284-294 | after the UPDATE every row's image exists |
| ItemStore.ModKeepsDistinct | item/util/util.go:284-294 | after the UPDATE no two rows share an image |
| ItemStore.ModTxAsWritten | item/util/util.go:260-294 | the transaction of Mod as written: a failed begin changes nothing; with an image change it always fails before the UPDATE, keeps the table and removes only the compensation path; without one it is the UPDATE's outcome |
| ItemStore.WrittenOutcomeConsistent | item/util/util.go:210-297 | every outcome of Mod as written keeps consistency when the new image name is fresh |
| ItemStore.ModTx | item/util/util.go:269-294 | the transaction: begin, SELECT the old image, UPDATE, commit, remove the old image; a failed begin returns at once and keeps the new file; a failed SELECT or UPDATE runs rmImg, which removes the path it was given |
| ItemStore.ModIntended | item/util/util.go:210-297 | Mod with the three defects corrected: each failure point's rows and files, and consistency kept when the commit succeeds |
| ItemStore.TxOutcome | item/util/util.go:260-294 | the corrected transaction's result on the copied files is the corrected Mod's outcome from the original files |
| ItemStore.OutcomeConsistent | item/util/util.go:210-297 | every outcome of the corrected Mod keeps consistency for a fresh image name and a successful commit |
| LegacyStore.ParseKey | util/util.go:145-151 | an integer is an id; a syntax error is a name; a range error is returned; useName forces a name |
| LegacyStore.ParseKeyItoa | util/util.go:145-148 | the text of an int addresses by id |
| LegacyStore.HoldsPicks | util/util.go:194-195 | "fld = $n" holds iff the key addresses the row |
| LegacyStore.PicksOne | util/util.go:229-234 | a key addresses at most one row of a keyed table |
| LegacyStore.AddInserts | util/util.go:91-126 | ItemAdd's INSERT adds exactly the given row, or fails on a clash |
| LegacyStore.ItemAdd | util/util.go:89-134 | a failed write issues no INSERT; a failed INSERT removes the written image; success keeps it; consistency is preserved |
| LegacyStore.ExecOrRemove | util/util.go:124-131 | a failed statement removes the written image |
| LegacyStore.Modified | util/util.go:194-195 | the UPDATE keeps the number of rows |
| LegacyStore.ModPairsNested | util/util.go:173-188 | the SET list grouped as its parts |
| LegacyStore.ModRanked | util/util.go:173-188 | SET order is img, name, descr, price, without repeats |
| LegacyStore.ModChanges | util/util.go:173-188 | the SET list replaces each given field |
| LegacyStore.ModRuns | util/util.go:193-195 | the UPDATE changes the picked row, with the WHERE placeholder $len(sets)+1 |
| LegacyStore.ModKeepsConsistent | util/util.go:153-203 | an UPDATE that stores a fresh image keeps consistency; the old image is never removed |
| LegacyStore.SetLists | util/util.go:173-188 | the sets/args slices the code grows are the statement's lists |
| LegacyStore.ItemMod | util/util.go:136-204 | a range error changes nothing; otherwise the outcome of ModOutcome; only the new image's file can change; consistency is kept |
| LegacyStore.ModByKey | util/util.go:153-203 | ModOutcome: a failed write returns its error with the table unchanged and the copy's file effect; with no changed field nothing runs and nothing changes; a successful UPDATE gives its table and keeps the new image; a failed one leaves the table and removes the new image |
| LegacyStore.ModOutcomeFrame | util/util.go:153-203 | no file other than the new image changes |
| LegacyStore.ModOutcomeConsistent | util/util.go:153-203 | every outcome keeps consistency when the new image is fresh |
| LegacyStore.UpdateUnlessEmpty | util/util.go:190-202 | with no changed field no statement runs; otherwise a failed UPDATE removes the new image |
| LegacyStore.ModPreservesConsistency | util/util.go:193-203 | the UPDATE's outcome keeps consistency |
| LegacyStore.KeyRows | util/util.go:229 | the rows the key addresses |
| LegacyStore.OtherRows | util/util.go:234 | the rows it does not |
| LegacyStore.KeyMatching | util/util.go:229-234 | SELECT and DELETE with "fld = $1" act on exactly the addressed rows |
| LegacyStore.DelStatements | util/util.go:229-234 | the SELECT reads the addressed row's image and the DELETE removes that row |
| LegacyStore.DelKeepsConsistent | util/util.go:234-242 | deleting a row and its image keeps consistency |
| LegacyStore.ItemDel | util/util.go:206-245 | errors before the commit remove nothing; otherwise the row goes and then its non-NULL image, even if the commit fails |
| Storefront.TailMatch | serve/serve.go:87 | the leftmost match of [1-9][0-9]*$: the earliest position where it matches |
| Storefront.Stoi | serve/serve.go:475-477 | stoi as written: never negative; no match is a syntax error |
| Storefront.IntMatch | serve/serve.go:87 | what intRE finds: nothing, "0" at the start, or a tail of the text that is a numeral with a non-zero first digit |
| Storefront.StoiItoa | serve/serve.go:475-477 | the text of every n >= 0 reads back as n |
| Storefront.StoiSignIgnored | serve/serve.go:475-477 | "-5" reads as 5 |
| Storefront.StoiPrefixIgnored | serve/serve.go:475-477 | "x7" reads as 7 |
| Storefront.StoiZeroExamples | serve/serve.go:475-477 | "07" and "0abc" read as 0; "12a" and "" are errors |
| Storefront.StoiIntended | serve/serve.go:475-477 | the anchored reading: accepts only canonical non-negative numerals |
| Strconv.ValueLeading | serve/serve.go:475-477 | a numeral is worth at least its leading digit |
| Strconv.DigitsValue | serve/serve.go:475-477 | a canonical numeral is the decimal text of its value |
| Strconv.LastDigit | serve/serve.go:475-477 | appending a digit: division by ten recovers the prefix and the remainder is that digit |
| Storefront.StoiIntendedExact | serve/serve.go:475-477 | the corrected stoi yields n iff the text is Itoa(n), n >= 0 |
| Storefront.StoiIntendedCanonical | serve/serve.go:475-477 | an accepted text is the Itoa of its value |
| Storefront.StoiIntendedItoa | serve/serve.go:475-477 | the corrected stoi reads back every n >= 0 |
| Storefront.StoiDiffers | serve/serve.go:475-477 | the two readings differ on "-5" and "x7" |
| Storefront.LineOf | serve/serve.go:535-559 | a field is an order line iff its key is not reserved, both parse, and 1 <= quantity <= 100 |
| Storefront.Lines | serve/serve.go:551-559 | every order line's quantity is in 1..100 |
| Storefront.Tally | serve/serve.go:558-559 | the ordered map has a key for every line's id |
| Storefront.Ids | serve/serve.go:558 | the ids in line order |
| Storefront.TallyLines | serve/serve.go:558-559 | the ordered map holds exactly the line ids, each with the quantity of one of its lines |
| Storefront.TallyBounds | serve/serve.go:555-559 | every ordered quantity is in 1..100 |
| Storefront.CollectOrder | serve/serve.go:535-560 | the loop yields the customer fields, the ids and the ordered map of the lines |
| Storefront.CustomerOf | serve/serve.go:536-548 | a form with no reserved key leaves every customer field empty |
| Storefront.CollectStep | serve/serve.go:535-559 | one more posted field fills the customer from a reserved key and appends its order line, if it makes one |
| Storefront.AppendLine | serve/serve.go:558-559 | an appended line appends its id to ids and sets its quantity in ordered |
| Storefront.NoLines | serve/serve.go:535-560 | a form with only reserved keys yields no order line |
| Storefront.PriceView.Str | serve/serve.go:51-54 | an unset price text is "" |
| Storefront.ImgURL | serve/serve.go:92-94 | the image URL is rooted |
| Storefront.ImgURLPlain | serve/serve.go:92-94 | for a plain name the URL is "/img/" + name |
| Storefront.ViewOf | serve/serve.go:387-401 | a view item's id, Ord, name, price, text "" for NULL descr and cleaned image URL |
| Storefront.ViewPriceRoundTrip | serve/serve.go:393-394 | the price text of a view parses back to its number |
| Storefront.ListedRows | item/util/util.go:306-338 | the listing holds exactly the addressed rows |
| Storefront.PageItems | serve/serve.go:381-406 | one view per listed row, Ord = index, sorted by name |
| Storefront.PageItemsAt | serve/serve.go:387-403 | the k-th view shows the k-th listed row |
| Storefront.PageItemsShown | serve/serve.go:387-403 | every view comes from a listed row |
| Storefront.PageItemsComplete | serve/serve.go:387-403 | every listed row has a view |
| Storefront.GetItems | serve/serve.go:381-406 | a failed query yields no items; otherwise the page items |
| Storefront.SumStep | serve/serve.go:581 | the running total after a line is the wrapped sum so far |
| Storefront.LineTotal | serve/serve.go:578-579 | an item not ordered totals 0; without overflow the total is price × quantity |
| Storefront.Checked | serve/serve.go:577-580 | checking an item changes only its quantity and total: quantity = ordered[id] or 0, total = LineTotal, rendered |
| Storefront.UnorderedSum | serve/serve.go:576-582 | with none of the items ordered the line totals sum to 0 |
| Storefront.CheckLine | serve/serve.go:577-581 | one item: quantity = ordered[id] or 0, line total = price × quantity, other items untouched |
| Storefront.Checkout | serve/serve.go:575-584 | each item checked in place; grand total = sum of line totals + 500, wrapping as Go int |
| Storefront.AddDelivery | serve/serve.go:583-584 | the delivery charge of 500 is added last |
| Storefront.CheckoutExample | serve/serve.go:575-584 | items at 5.00 and 12.00 ordered 2 and 1 give lines of 10.00 and 12.00 and 27.00 with delivery |
| Storefront.ShowItems | serve/serve.go:569-584 | lists the items, and at checkout fills quantities and totals |
| Storefront.CheckoutPage | serve/serve.go:575-584 | the checkout loop on the page's items |
| Storefront.ToArray | serve/serve.go:569 | the page's items as an array |
| Storefront.EmptyOrder | serve/serve.go:569-584 | with no order lines every quantity is 0 and the total is the delivery charge, "5.00" = String(500) |
| Storefront.RootPage | serve/serve.go:479-598 | handleRoot for a given key and quantity reader: a bad POST action is rejected; a POST is checked out from its order lines; any other request lists all items |
| Storefront.HandleRoot | serve/serve.go:479-598 | handleRoot as written, reading keys and quantities with stoi: the order lines are those stoi makes of the posted fields |
| Storefront.HandleRootIntended | serve/serve.go:479-598 | handleRoot with the corrected stoi: only whole canonical numerals make order lines |
| Storefront.LinesDiffer | serve/serve.go:551-557 | a field "x7" = "2" orders two of item 7 as written and nothing with the corrected reader |
| Admin.FormValue | serve/serve.go:212 | a field not posted reads as "" |
| Admin.DescrField | serve/serve.go:228-231 | an empty descr field leaves the description unset |
| Admin.AddRequest | serve/serve.go:209-237 | itemAdd rejects, in this order, an empty name with 400, a refused upload with its status and an invalid price with 400; otherwise builds the item |
| Admin.AddRequestPrice | serve/serve.go:233-237 | a price posted as String(n) is stored as n |
| Admin.ItemAdd | serve/serve.go:209-244 | a bad request changes nothing; a failed copy is 500 with no row and the copy's file effect; a store error is 500 with Add's outcome; success is 200 |
| Admin.ModRequest | serve/serve.go:247-281 | itemMod: a bad id is 400, then a refused upload answers its status, then an invalid non-empty price is 400; empty name, descr or price leave that field alone; an upload sets the image to its file name |
| Admin.ItemMod | serve/serve.go:247-288 | a bad request changes nothing; without an upload the UPDATE's outcome with 200 or 500; with an upload Mod as written always fails, so the answer is 500, the table is unchanged and the new file stays behind; consistency is kept |
| Admin.ItemModIntended | serve/serve.go:247-288 | itemMod over the corrected Mod: a bad request changes nothing; otherwise the corrected Mod's outcome with 200 or 500, and consistency kept when the commit succeeds |
| Admin.ItemDel | serve/serve.go:290-299 | a bad id is 400 and changes nothing; otherwise Del of that one id |

## Left out

- Input and output are parameters or left out. The clock stamp in
  generated names, the next id, whether the copy of an upload fails and
  whether each database step fails are all in `Storage.Env`. Removing a
  file is assumed to succeed (see `Storage.Backend.Remove` below). Templates, logging, HTTP status writing
  and the sending of an order to the Telegram chat in `handleRoot` are not
  modelled.
- The SQL engine and the file system are abstract (`Sql`, `Storage`). The
  `ORDER BY name` collation is code-point order. Concurrent requests and
  `dbConnFix`'s lock are not modelled.
- `rows.Err()` and `rows.Close()` after the loops are not modelled; a query
  either fails as a whole or yields all its rows.
- `getForm` and `formGetFile`, with their MIME checks, are not part of this
  model. Their result is the `Admin.Upload` input: no file, a refused file
  with its status, or a file with its client-side name.
- `handleAdmin`'s dispatch, `auth`, `chpass`, the pw, tg and tg/util
  packages, `DBTest`, `DBConnect` and `ItemLs` are not part of this model.
  The last one only prints rows.
- item/item.go is not part of this model. Its flag conventions, such as an
  empty `-img` clearing the image, arrive as `ItemStore.Item` inputs.
- Storefront.CollectOrder: `r.PostForm` is a Go map, iterated in no fixed
  order. The form is a sequence in some order, and `TallyLines` states only
  that, when several fields read to the same id, the quantity of one of them
  wins.
- ItemStore.Add, ItemStore.Mod, LegacyStore.ItemAdd, LegacyStore.ModByKey:
  the image is copied before the column or SET lists are built, not between
  two appends. The lists live only in memory, so the effects are the same.
- Storefront.HandleRoot: requires that every stored price fits a Go int
  (`PricesFit`), as it does when it is scanned into one.
- Storefront.PriceView.Str: the `Str` text of a view price is derived from
  its number by `Prices.String`; its contract states only the unset case.
  `ViewPriceRoundTrip` and `EmptyOrder` state the rendered case.
- Storage.Backend.Remove: `os.Remove` can fail (a missing file, a
  permission error), and the Go code ignores its error at
  item/util/util.go:111, 149, 204, 223 and 293 and util/util.go:106, 128,
  198 and 241. The model assumes every removal succeeds, so the file sets
  stated by ItemStore.Add, ItemStore.Del, ItemStore.Mod, ItemStore.ModTx,
  ItemStore.ModIntended, LegacyStore.ItemAdd, LegacyStore.ItemMod,
  LegacyStore.ItemDel and the handlers over them hold only when no removal
  fails. A failed removal leaves a stray file; it never touches the table.
  The one removal that fails in every reachable state, Mod's `rmImg` of the
  image directory `"img/"`, is modelled faithfully: `"img/"` is never in
  the file set of a consistent store, so removing it changes nothing.
- Storefront.CollectOrder, Storefront.CustomerOf: the form sequence holds
  each key of `r.PostForm` once with its first value, which is what
  `r.FormValue` reads. The contracts do not need the keys to be distinct.
- Strconv.Itoa: its contract states only the shape of the text. The value
  is stated by `AtoiItoa` and `Digits`.

## Findings

| source | as written | input that shows it | evidently intended | confidence | as-written member | corrected member |
|---|---|---|---|---|---|---|
| item/util/util.go:260-282 | The SELECT of the old image reuses the WHERE clause, numbered `$len(set)+1`, but passes only the WHERE argument. Any change or clear of the image adds an img clause, so the placeholder is at least $2 with one argument and PostgreSQL rejects the statement. | `Mod` with id 3 and a new image named `a.png`: the SELECT is `img FROM items WHERE id = $2` with one argument | the SELECT numbers its own placeholder `$1` | high, not executed | ItemStore.ModSelectRejected, ItemStore.Mod | ItemStore.ModIntended |
| item/util/util.go:247 | `newImgPath` is computed from the still-empty `img` rather than `newImg`, so `rmImg` tries to remove the image directory `"img/"`, which holds the new file, and the error is ignored. A failed SELECT or UPDATE leaves the new file orphaned. | `Mod` with a new image, where the SELECT of the old image fails first: the `rmImg` at line 279 is given `"img/"` and the new file stays | `newImgPath = util.ImgPath(newImg)` | high, not executed | ItemStore.Mod | ItemStore.ModIntended |
| item/util/util.go:276-281 | The old image is scanned into a Go `string`. For an item whose img is NULL the scan fails, so its image can never be set. | `Mod` with a new image on a row whose img is NULL, placeholder corrected | scan into a `*string` and treat NULL as no old image | medium, not executed | ItemStore.ScanStringNull | ItemStore.ModIntended |
| serve/serve.go:87 | The `^` anchor of intRE binds only to `0`. Any string ending in a non-zero-led digit run is read as that run. | `stoi("-5")` = 5, `stoi("x7")` = 7, `stoi("07")` = 0 | accept only a whole canonical numeral, with both alternatives anchored at both ends | medium, not executed | Storefront.Stoi, Storefront.StoiSignIgnored, Storefront.StoiPrefixIgnored, Storefront.StoiDiffers | Storefront.StoiIntended, Storefront.StoiIntendedExact |

`Admin.ItemMod` and `Storefront.HandleRoot` model the handlers as written,
over `ItemStore.Mod` and `Storefront.Stoi`. `Admin.ItemModIntended` and
`Storefront.HandleRootIntended` are the same handlers over the corrected
members.
