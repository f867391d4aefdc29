# Verified model of the Hedera Transaction Tool's logic

Dafny models of the algorithmic parts of the Hedera Transaction Tool (desktop application, back-end and test
automation), with proofs of what these parts are for. `dafny verify dfyconfig.toml` checks all of it.

| module | what it covers |
|---|---|
| `Keys`, `Thresholds`, `ShortenedKeys`, `SmallestKeys`, `ComplexKeys`, `GroupKeys` | nested threshold keys: when signers satisfy a key, the smallest sets of signatures, generated keys, keys assembled by path edits, storage |
| `Migrations`, `Timestamps` | the transactional SQLite migration runner and the calendar arithmetic that orders migrations |
| `ServicesConfig`, `MessageFiles` | showing and encoding the network's special files |
| `ForeignKeys`, `ResetOrder` | emptying PostgreSQL tables under foreign keys: a theory for every graph, and its instance for this schema |
| `Signatures`, `SequentialSigning` | merging signature maps, the V1 format, and uploads that must not overlap |
| `Isolation` | the cached isolation context of a Playwright worker |
| `JsonData`, `Pagination`, `Version`, `Clock` | JSON normalizers, paginated fetching, version order, the time picker |
| `Sorting`, `Strings`, `Wrappers` | stable sort, sums, string operations, `Option` |

## How to read the model

- A method with loops or updates follows the code; its `ensures` equates the outcome with a specification function
  (or states the property outright), and the lemmas about that function are the results.
- Beside the results about them, specification functions have laws that say what they compute without naming how: what a
  threshold means, which SQL is executed, how a text is read, what is shown. They are in the table too.
- A signer set *satisfies* a list when at least `threshold` members are satisfied, where no threshold, or 0, means all
  of them and an empty list is never satisfied, as in the back-end's `hasValidSignatureKey`.
- `Shortened` is used twice: its minimality is the promise of `computeShortenedPublicKeyList`, and it is also the
  optimal strategy from which the fewest signers of generated and grouped keys are computed.
- A migration's SQL is an arbitrary partial function on databases. Results about recorded rows assume that it leaves
  the rows of "Migration" to the runner (`LeavesRowsAlone`).
- Where the code falls short of its documentation the model follows the code, and says when it does what is promised,
  in all cases but the first by an exact condition:
  - `computeShortenedPublicKeyList` promises the smallest set. When no given public key occurs more than k times in the
    list, the answer is at most k times as large (`ShortenedIsWithinFactor`), which for k = 1 is the promise
    (`ShortenedIsSmallest`), and for every k there is a list where it is k times as large (`FactorIsReached`).
  - A migration whose stamp is not above an already recorded one is never applied. Migrating in two steps applies what
    migrating at once applies if and only if every later migration that is above the first watermark has a newer stamp
    than all older ones (`TwoRunsAreOne`).
  - Years below 100 are taken for the 20th century. Two stamps in text order are in the order of their times if and only
    if it is not the case that only the first has such a year and its date is then no longer earlier (`OrderIsKeptIff`).
  - A services configuration survives showing and encoding if and only if no name or value contains `=` or a
    character that section 7 of RFC 8259 escapes, and no setting has data (`RoundTripIff`).
  - An address book entry survives if and only if its certificate hash is the UTF-8 encoding of a text and every endpoint
    has address bytes (`NodeSurvivesIff`); the operations of a throttle bucket survive if and only if the enumeration
    knows them (`BucketSurvivesIff`).
  - The table reset stops half-way if and only if one of six review tables has a row (`ResetEmptiesIff`).
  - Mixed version identifiers can be in a cycle such as 1a < 9 < 10 < 1a. The order is transitive on a family of
    identifiers if and only if no text of it straddles two of its numbers in this way (`TransitiveIff`).
  - Section 11 item 3 of Semantic Versioning 2.0.0 makes a pre-release older than its release. The code does so if and
    only if its first identifier that is not level with 0 is a text below "0", and counts it as newer if and only if that
    identifier is a positive number or a text above "0" (`PreReleaseOrderIff`). With alphanumeric identifiers the order is
    never right (`PreReleaseIsNeverOlder`).
  - Of any number of overlapping uploads, the stored bytes keep those that the last writer builds on: its own, the one
    that had written last when it loaded, and so on back (`StoredIsTheChain`, `MatchesIffChainHasAll`). Two overlapping
    uploads keep every signature if and only if the later writer had nothing new to write when it loaded, or also sent
    what the other one wrote (`TwoUploadsMatchIff`).
  - The item counts of a paginated fetch exceed the total by what single pages count too much (`CountsAreItemsAndExcess`).
    Unless a server gives negative lengths, they sum to the total if and only if no page read counts too much
    (`CountsSumIff`), as a page does whose items are no list but have a length, or a text with characters outside the
    basic plane.
  - A fee schedule key comes back from its new name if and only if it is neither a new name nor a name that every
    JavaScript object inherits, such as "constructor" (`FeeKeysComeBackIff`).
  - The time picker reaches the right time if and only if each of three dividends is non-negative or leaves no remainder
    (`NewTimeIsRightIff`).
  - An activation with a run id that is set but blank gets a default run id (`ActivatedContext`).

## Model

| member | source | states |
|---|---|---|
| Keys.HasValidSignatureKey | back-end/libs/common/src/utils/sdk/key.ts:31-49 | the recursive count answers true exactly when the signers satisfy the key |
| Thresholds.EveryoneMustSign | back-end/libs/common/src/utils/sdk/key.ts:31-49 | a public key must sign itself; without a threshold, or with 0, a list is satisfied iff it is not empty and every member is |
| Thresholds.SomeMustSign | back-end/libs/common/src/utils/sdk/key.ts:37-45 | with the threshold t > 0 a list is satisfied iff some t of its positions hold satisfied members |
| Keys.FlattenKeyList | automation/utils/crypto/keyUtil.ts:49-73 | the recursion that accumulates public keys returns the leaves from left to right |
| Thresholds.LeavesInOrder | automation/utils/crypto/keyUtil.ts:58-72 | the flattened keys of a list are those of its members one after the other, at every depth |
| Keys.SatisfactionDependsOnLeaves | automation/utils/crypto/keyUtil.ts:49-73 | two signer sets that agree on the flattened keys satisfy the same keys, for every key tree |
| Keys.SatisfactionIsMonotone | back-end/libs/common/src/utils/sdk/key.ts:31-49 | more signers never unsatisfy a key |
| ShortenedKeys.ComputeShortenedPublicKeyList | back-end/libs/common/src/utils/sdk/key.ts:94-129 | the loop with its early return, the recursion and the stable sort compute the specification `Shortened` |
| ShortenedKeys.MembersInOrder | back-end/libs/common/src/utils/sdk/key.ts:102-120 | given public keys and the answers of nested lists are each collected in the order of the members |
| ShortenedKeys.DirectKeysComeFirst | back-end/libs/common/src/utils/sdk/key.ts:102-126 | public keys of the list itself come before those of nested lists, the first ones first |
| ShortenedKeys.ShortenedTakesFirstPicks | back-end/libs/common/src/utils/sdk/key.ts:102-126 | both branches keep the first `threshold` candidates in the order "own keys, then nested results by size" |
| ShortenedKeys.ShortenedSatisfies | back-end/libs/common/src/utils/sdk/key.ts:87-129 | null exactly when the given keys do not satisfy the list; otherwise the result consists of given keys of the list and satisfies it |
| SmallestKeys.SignersOutweighCandidates | back-end/libs/common/src/utils/sdk/key.ts:122-126 | a lower bound on the signing leaves of every signer set, by the shortfall of each candidate below a cutoff |
| SmallestKeys.CandidateIsMinimal | back-end/libs/common/src/utils/sdk/key.ts:87-129 | for every tree and every satisfying subset: the kept candidate is no larger than the number of leaves that sign |
| SmallestKeys.ShortenedIsWithinFactor | back-end/libs/common/src/utils/sdk/key.ts:87-129 | for every list in which no given key occurs more than k times: the answer is at most k times as large as any given set that satisfies the list |
| SmallestKeys.ShortenedIsSmallest | back-end/libs/common/src/utils/sdk/key.ts:87-129 | the documented promise: no given set that satisfies the list is smaller, when none of the given keys occurs twice in the list |
| SmallestKeys.FactorIsReached | back-end/libs/common/src/utils/sdk/key.ts:87-129 | for every k there is a list with a key in k branches for which the answer is k times as large as the smallest set |
| SmallestKeys.SharedKeysMayBeKeptTwice | back-end/libs/common/src/utils/sdk/key.ts:87-129 | the promise fails for a key shared between two branches |
| ComplexKeys.GenerateMemberKeys | automation/k6/helpers/complex-keys.ts:86-93 | the inner loop hands out the next keys and records each in the list and the map |
| ComplexKeys.GenerateComplexThresholdKey | automation/k6/helpers/complex-keys.ts:77-111 | the nested loops build the "p of n" key over "t of k" lists; its flattened keys are the public keys of all private keys in generation order, and the metadata counts them |
| ComplexKeys.MemberListAt | automation/k6/helpers/complex-keys.ts:85-98 | member list i has the threshold of configuration i and the next numKeys generated keys |
| ComplexKeys.LeavesOfThresholdKey | automation/k6/helpers/complex-keys.ts:85-98 | the member lists split the generated keys without gap, overlap or reordering |
| ComplexKeys.FewestSignersOfThresholdKey | automation/k6/helpers/complex-keys.ts:62-111 | the key can be satisfied iff at least p member lists can be, and the least number of signers is then the sum of the p smallest needs |
| ComplexKeys.FewestSignersOfOnes | automation/k6/helpers/complex-keys.ts:77-111 | when one signature is enough for every member list, the least number of signers is the parent threshold |
| ComplexKeys.AlternatingTotals | automation/k6/helpers/complex-keys.ts:123-127 | an alternating configuration has two keys for each even and three for each odd member |
| ComplexKeys.HederaStyleKey | automation/k6/src/config/constants.ts:135-143 | 72 keys, of which some 17 are enough and no 16 are |
| ComplexKeys.SerializedKeysBelongTogether | automation/k6/helpers/complex-keys.ts:162-169 | stored private and public keys match one for one, in order |
| ComplexKeys.DeserializeComplexKey | automation/k6/helpers/complex-keys.ts:178-190 | rebuilds the private keys in order and the map from public to private keys |
| ComplexKeys.StoreAndLoad | automation/k6/helpers/complex-keys.ts:158-190 | deserializing a serialized key restores the key sequence and the map |
| ComplexKeys.LookupFindsEveryKey | automation/k6/helpers/complex-keys.ts:185-187 | with distinct public keys the map finds exactly the generated private keys |
| ComplexKeys.LookupFindsLast | automation/k6/helpers/complex-keys.ts:185-187 | the map has the last private key with a public key |
| GroupKeys.ComplexKeyEditor.AddThresholdKeyAtRoot | front-end/src/renderer/components/ComplexKey/ComplexKeyThreshold.vue:90-94 | appends an empty list to the root and changes nothing else |
| GroupKeys.ComplexKeyEditor.AddPublicKeyAt | front-end/src/renderer/components/ComplexKey/ComplexKeyThreshold.vue:66-81 | appends a key to one group unless the group has it |
| GroupKeys.ComplexKeyEditor.SelectThresholdAt | front-end/src/renderer/components/ComplexKey/ComplexKeyThreshold.vue:48-51 | sets one group's threshold only |
| GroupKeys.AddGroupMembers | automation/pages/OrganizationPage.ts:844-850 | the inner loop with its break fills one group with the users of that group |
| GroupKeys.CreateComplexKeyForUsers | automation/pages/OrganizationPage.ts:836-864 | the path edits produce exactly the specified grouped key |
| GroupKeys.GroupCount | automation/pages/OrganizationPage.ts:836 | the group count is the least that covers all users |
| GroupKeys.GroupKeyIsBalanced | automation/pages/OrganizationPage.ts:828-864 | users 1 to n are the leaves in order, every group needs one signature, every group but the last is full and none is empty, and the fewest signers number ⌈⌈n/g⌉/2⌉ |
| Migrations.Connection.Exec | front-end/src/main/db/init.ts:46 | executes SQL, or reports an error and leaves whatever its statements in front of the error did |
| Migrations.Connection.Rollback | front-end/src/main/db/init.ts:59-64 | restores the database saved when the transaction began |
| Migrations.InitDatabase | front-end/src/main/db/init.ts:23-70 | a run ends without open transaction, with either exactly the starting database, whatever a failing migration left behind, or exactly what `Run` says |
| Migrations.RunIsExact | front-end/src/main/db/init.ts:27-70 | a committed run has applied, in strictly ascending order, the first migration of every stamp above the watermark and no other, and recorded exactly these |
| Migrations.RunExecutesSql | front-end/src/main/db/init.ts:37-66 | a run executes the SQL of the applied migrations one after the other, each on the database that the one before left with its new row; it is rolled back when one fails or leaves no table |
| Migrations.NewerThanAllRecorded | front-end/src/main/db/init.ts:41 | a migration is newer iff its stamp is above every recorded stamp, or there is no table |
| Migrations.WatermarkAfterRun | front-end/src/main/db/init.ts:114-127 | the next watermark is the last applied stamp, and nothing available is above it |
| Migrations.RerunAppliesNothing | front-end/src/main/db/init.ts:35-70 | running again after success changes nothing |
| Migrations.FolderOrderDoesNotMatter | front-end/src/main/db/init.ts:27-29 | the order in which folders are listed is irrelevant when stamps are distinct |
| Migrations.SecondRunContinues | front-end/src/main/db/init.ts:35-70 | one run with all folders applies what a first run applied, then what the second applies |
| Migrations.MissedMigration | front-end/src/main/db/init.ts:41 | a late migration below the new watermark is applied by neither of two runs though one run would apply it |
| Migrations.LateMigrationIsMissed | front-end/src/main/db/init.ts:41 | stamp 1 after stamp 2: one run applies both, two runs only the second |
| Migrations.NoneMissedIff | front-end/src/main/db/init.ts:41 | whether the first run's watermark hides a later migration can be told from the stamps beforehand |
| Migrations.TwoRunsAreOne | front-end/src/main/db/init.ts:23-70 | a run on the older folders and a run on all apply what one run on all applies iff every later migration above the watermark is newer than the older ones; then also database and outcome agree |
| Migrations.NewerPartMayFollow | front-end/src/main/db/init.ts:23-70 | for an older part and a strictly newer part, two runs leave the same database and table as one, or fail alike |
| Timestamps.StampsCompareByFields | front-end/src/main/db/init.ts:129-137 | the order of 14-digit texts is the order of the six numbers that are sliced out |
| Timestamps.FieldsOfText | front-end/src/main/db/init.ts:130-137 | year, month, day, hours, minutes and seconds are read from the digits in this order |
| Timestamps.YearLength | front-end/src/main/db/init.ts:139 | the closed day formula agrees with the leap-year rule of section 21.4.1 of ECMA-262 |
| Timestamps.GregorianCycle | front-end/src/main/db/init.ts:139 | 400 years have 97 leap years, and the day count starts in 1970 |
| Timestamps.MonthLengths | front-end/src/main/db/init.ts:139 | the twelve month lengths |
| Timestamps.Epoch | front-end/src/main/db/init.ts:139-141 | midnight of 1 January 1970 is 0 in UTC and earlier by the offset where clocks are ahead |
| Timestamps.TimeOfDay | front-end/src/main/db/init.ts:139-141 | hours, minutes and seconds count 3600, 60 and 1 |
| Timestamps.NextDayIsADayLater | front-end/src/main/db/init.ts:139-141 | the next calendar date is 86400 seconds later, across months and years |
| Timestamps.TwoDigitYears | front-end/src/main/db/init.ts:139 | the years 0 to 99 are 1900 to 1999 |
| Timestamps.LaterFieldsAreLater | front-end/src/main/db/init.ts:139-141 | later calendar fields give a later number of seconds |
| Timestamps.StampOrderIsNameOrder | front-end/src/main/db/init.ts:129-142 | text order of folder stamps is numeric order of `getTimestamp`, and equal stamps are equal texts, for existing dates from the year 100 |
| Timestamps.OrderIsKeptIff | front-end/src/main/db/init.ts:129-142 | for every year: exactly when two stamps in text order are in the order of their times |
| Timestamps.EarlyYearsAreOutOfOrder | front-end/src/main/db/init.ts:129-142 | the folder of the year 0050 comes before that of the year 0200 as text and after it in time |
| Timestamps.FirstMigrationStamp | front-end/src/tests/main/db/init.spec.ts:93-96 | the folder 20240207141145_init has the stamp that the repository's test records for it, less the offset |
| Timestamps.AppliedInNameOrder | front-end/src/main/db/init.ts:27-70 | every run applies migrations in the order of their folder stamps |
| ServicesConfig.SplitAtNewline | front-end/src/shared/hederaSpecialFiles.ts:336-337 | splitting at the two characters of an escaped newline distributes over joined texts |
| ServicesConfig.FaithfulIsReadBack | front-end/src/shared/hederaSpecialFiles.ts:336-347 | a setting without separators or escapes is read back as itself |
| ServicesConfig.ReadBackIsFaithful | front-end/src/shared/hederaSpecialFiles.ts:332-347 | and no other setting is |
| ServicesConfig.RoundTripIff | front-end/src/shared/hederaSpecialFiles.ts:215-223 | print, quote and encode give back the list iff every setting is faithful |
| ServicesConfig.ShownLines | front-end/src/shared/hederaSpecialFiles.ts:215-223 | each setting is shown on its own line, name before value |
| ServicesConfig.ReadLineCases | front-end/src/shared/hederaSpecialFiles.ts:339-345 | the name ends at the first equals sign, the value at the second, and a line without one has the value undefined |
| ServicesConfig.EncodedLineByLine | front-end/src/shared/hederaSpecialFiles.ts:332-338 | the encoder takes off the quotes, reads line by line, and leaves out empty lines |
| ServicesConfig.EscapedCharacters | front-end/src/shared/hederaSpecialFiles.ts:215-223 | exactly quotation marks, backslashes and control characters are escaped when the text becomes JSON (section 7 of RFC 8259) |
| MessageFiles.StringifyNodeAddressBook | front-end/src/shared/hederaSpecialFiles.ts:77-112 | the in-place rewriting of every entry that has a certificate hash: endpoints, hash, account, node id and stake |
| MessageFiles.ShownEntry | front-end/src/shared/hederaSpecialFiles.ts:77-112 | node id, stake, account and addresses are shown as decimal numerals without leading zeros, in their places and order |
| MessageFiles.EntryWithoutHash | front-end/src/shared/hederaSpecialFiles.ts:81 | without a certificate hash an entry is shown as it is |
| MessageFiles.EncodeNodeAddressBook | front-end/src/shared/hederaSpecialFiles.ts:271-302 | the in-place rewriting back, for every content of the fields; it succeeds iff the libraries read every node id and account |
| MessageFiles.EncodedEntry | front-end/src/shared/hederaSpecialFiles.ts:275-300 | an edited entry is encoded field by field |
| MessageFiles.EncodedEndpoint | front-end/src/shared/hederaSpecialFiles.ts:294-300 | an edited address becomes its bytes, and a port of 0 or no text becomes null |
| MessageFiles.EncodedEmptyFields | front-end/src/shared/hederaSpecialFiles.ts:277-286 | empty and missing fields stay, except that an account becomes null |
| MessageFiles.AddressSurvives | front-end/src/shared/hederaSpecialFiles.ts:295-297 | address bytes of any positive number survive join and split; no bytes become the byte 0 |
| MessageFiles.NodeIdSurvives | front-end/src/shared/hederaSpecialFiles.ts:276-281 | every signed 64-bit node id survives; 0 becomes a missing field, which is 0 on the wire |
| MessageFiles.AccountSurvives | front-end/src/shared/hederaSpecialFiles.ts:283-286 | an account of three signed 64-bit numbers that are not negative is read as it is shown |
| MessageFiles.NodeSurvivesIff | front-end/src/shared/hederaSpecialFiles.ts:271-308 | encoding a shown entry never fails, and node id, account, hash, stake and endpoints come back on the wire iff the hash is the UTF-8 encoding of a text and all endpoints have address bytes |
| MessageFiles.UnsignedSurvives | front-end/src/shared/hederaSpecialFiles.ts:373-376 | an unsigned 64-bit value printed in decimal and read as a signed one keeps its bits |
| MessageFiles.StringifyThrottleDefinitions | front-end/src/shared/hederaSpecialFiles.ts:225-250 | the nested in-place rewriting of throttle buckets |
| MessageFiles.ShownBucket | front-end/src/shared/hederaSpecialFiles.ts:225-250 | operations are shown by their names and rates as decimal numerals |
| MessageFiles.EncodeThrottleDefinitions | front-end/src/shared/hederaSpecialFiles.ts:358-390 | the nested in-place rewriting back, for every content of the fields; it succeeds iff the library reads every rate |
| MessageFiles.BucketSurvivesIff | front-end/src/shared/hederaSpecialFiles.ts:358-398 | both rates survive for every 64-bit value, and the operations iff the enumeration knows them |
| ForeignKeys.Client.Delete | automation/utils/db/databaseUtil.ts:358 | one statement deletes with cascades, or fails and changes nothing |
| ForeignKeys.ResetPostgresDbState | automation/utils/db/databaseUtil.ts:331-366 | the loop stops at the first error and keeps what was deleted before; it does nothing when state is preserved |
| ForeignKeys.DeleteKeepsIntegrity | automation/utils/db/databaseUtil.ts:358 | for every graph, a successful statement empties its table, only removes, and keeps referential integrity |
| ForeignKeys.ClosureIsLeast | automation/utils/db/databaseUtil.ts:358 | no more rows disappear than the cascades demand |
| ForeignKeys.DeleteFailsIff | automation/utils/db/databaseUtil.ts:358 | a statement fails iff a remaining row refers by NO ACTION to a disappearing one |
| ForeignKeys.ReferencesAreCleared | automation/utils/db/databaseUtil.ts:358 | a SET NULL reference remains iff the row that it refers to does, and other columns remain |
| ForeignKeys.ResetHistory | automation/utils/db/databaseUtil.ts:356-363 | the loop deletes table by table, each on what the one before left, up to the first failure, and keeps what was deleted |
| ForeignKeys.ResetSucceedsIff | automation/utils/db/databaseUtil.ts:339-360 | for every graph with any cascades and cleared columns: if no affected table refers by NO ACTION to one that disappears earlier, and no column is both cleared and NO ACTION, success iff no row outside the list refers to a listed table by NO ACTION; then all listed tables are empty; integrity and the rows of tables that are not affected are kept either way |
| ForeignKeys.MisorderedResetFails | automation/utils/db/databaseUtil.ts:339 | the order is necessary: one misplaced table makes the loop fail on a consistent database of two rows |
| ResetOrder.InitialKeysAreSafe | back-end/typeorm/migrations/1764999592722-InitialSchema.ts:22-40 | every initial foreign key respects the order of the list |
| ResetOrder.ReviewKeysAreSafe | back-end/typeorm/migrations/1786559199714-ReviewerGroups.ts:28-44 | every key into a listed table from outside the list starts in a review table |
| ResetOrder.SchemaIsSafe | automation/utils/db/databaseUtil.ts:340-354 | the whole schema meets the conditions of the general theorem |
| ResetOrder.ResetEmptiesIff | automation/utils/db/databaseUtil.ts:331-366 | on every consistent database the reset empties all listed tables iff the review tables are empty; integrity is kept either way |
| Signatures.MergeSignatureMaps | automation/k6/helpers/sign-transactions.ts:90-98 | the nested loops with in-place creation of entries turn the target into the merge, in any iteration order |
| Signatures.MergeIsUnion | automation/k6/helpers/sign-transactions.ts:86-98 | the merge is the pointwise union in which the source wins |
| Signatures.MergeKeepsNodes | automation/k6/helpers/sign-transactions.ts:91-95 | nodes and transactions of either map are kept, even without signatures |
| Signatures.MergeIsAssociative | automation/k6/helpers/sign-transactions.ts:90-98 | grouping of merges does not matter |
| Signatures.SignTransactionWithMultipleKeys | automation/k6/helpers/sign-transactions.ts:106-123 | the loop accumulates the merge over the keys |
| Signatures.SignAllIsUnion | automation/k6/helpers/sign-transactions.ts:100-123 | the result holds every key's signature for every body, and nothing else |
| Signatures.SignatureAt | automation/k6/helpers/sign-transactions.ts:113-119 | the signature at a position is the one its key makes for its node and transaction id |
| Signatures.KeyOrderDoesNotMatter | automation/k6/helpers/sign-transactions.ts:113-120 | order and repetition of keys do not matter |
| Signatures.ProjectNode | automation/utils/data/transactionUtil.ts:13-25 | the loops over a node's transactions and their public keys compute the projection in that order |
| Signatures.ProjectedIsLast | automation/utils/data/transactionUtil.ts:13-25 | each public key keeps the signature of the last transaction that it signed |
| Signatures.SignatureMapToV1 | automation/utils/data/transactionUtil.ts:3-29 | every node is projected, in any order of the nodes |
| Signatures.ToV1At | automation/utils/data/transactionUtil.ts:3-29 | every node is kept, with the last signature of each key |
| Signatures.ProjectionOfAll | automation/utils/data/transactionUtil.ts:3-29 | the projection of all signatures has, for each node, those for its last transaction |
| Signatures.AddToMerged | automation/utils/files/v1SignatureZip.ts:25-30 | the inner loop merges one key's projection, in any order of the nodes |
| Signatures.MergeV1IsUnion | automation/utils/files/v1SignatureZip.ts:25-30 | the V1 merge is the pointwise union in which the later key wins |
| Signatures.MergedV1Signatures | automation/utils/files/v1SignatureZip.ts:17-31 | merging one projection per key is projecting the map that merges all keys, for any number of transactions per node |
| SequentialSigning.Backend.UploadOrganizationSignatures | back-end/apps/api/src/transactions/signers/signers.service.ts:163-360 | an upload with nothing in between: new bytes, new rows and their number, or nothing when a check or the ownership of a key fails |
| SequentialSigning.UploadKeyByKey | back-end/apps/api/src/transactions/signers/signers.service.ts:227-348 | key by key: an upload that passes the checks, and whose keys the user owns, adds a row for each key without one and writes the loaded bytes with the new keys; any other upload does nothing |
| SequentialSigning.UploadAlone | back-end/apps/api/src/transactions/signers/signers.service.ts:227-348 | with nothing in between, bytes and rows each gain exactly the keys sent, or nothing |
| SequentialSigning.SignTransactionByAllUsersViaApi | automation/utils/api/signByAllUsersViaApi.ts:16-60 | all users but the first upload one after the other; too few users, an empty transaction id, nothing accepted, or the counts |
| SequentialSigning.UploadAllKeepsEverySignature | automation/utils/api/signByAllUsersViaApi.ts:38-51 | stored signatures and signer rows both gain exactly the keys of accepted uploads |
| SequentialSigning.SequentialRunIsSafe | automation/utils/api/signByAllUsersViaApi.ts:38-51 | in every state of every run at most one upload is in flight, and when none is, bytes and rows match |
| SequentialSigning.RowsLoseNothing | back-end/apps/api/src/transactions/signers/signers.service.ts:273-348 | in every interleaving of any number of uploads, the signer rows hold the keys of all accepted uploads that are done, and the bytes hold no more |
| SequentialSigning.StoredIsTheChain | back-end/apps/api/src/transactions/signers/signers.service.ts:227-348 | in every interleaving of any number of uploads, the bytes hold what they held at first and the keys of the uploads that the last writer builds on, told by when uploads load and write |
| SequentialSigning.MatchesIffChainHasAll | back-end/apps/api/src/transactions/signers/signers.service.ts:227-348 | at every moment, bytes and rows match iff these uploads sent the keys of every accepted upload that is done |
| SequentialSigning.TwoUploadsMatchIff | automation/utils/api/signByAllUsersViaApi.ts:38-41 | for every interleaving of two accepted uploads: exactly when bytes and rows match in the end |
| SequentialSigning.ConcurrentUploadsLoseASignature | automation/utils/api/signByAllUsersViaApi.ts:38-41 | a run of two overlapping uploads loses a signature although both rows exist |
| Isolation.IsolationModule.GetPlaywrightIsolationContext | automation/utils/setup/playwrightIsolation.ts:18-57 | answers from the cache or computes and caches |
| Isolation.ContextIsNeeded | automation/utils/setup/playwrightIsolation.ts:23-29 | there is a context iff a user-data directory or a worker index is set to more than blanks |
| Isolation.DefaultContext | automation/utils/setup/playwrightIsolation.ts:31-54 | with only the index n set: names with n, port 9333 + n, and the process as run id |
| Isolation.SetVariablesDecide | automation/utils/setup/playwrightIsolation.ts:31-54 | every variable that is set decides its part of the context |
| Isolation.TrimIsMiddle | automation/utils/setup/playwrightIsolation.ts:89-92 | exactly the blanks at both ends are ignored |
| Isolation.SanitizedCharacters | automation/utils/setup/playwrightIsolation.ts:94-96 | letters, digits, underscores and hyphens stay, and other characters become hyphens |
| Isolation.IsolationModule.ApplyPlaywrightIsolationEnv | automation/utils/setup/playwrightIsolation.ts:59-75 | writes the context to the variables that are not set |
| Isolation.IsolationModule.ClearPlaywrightIsolationEnv | automation/utils/setup/playwrightIsolation.ts:77-87 | removes the eight variables and the cache |
| Isolation.ClearedState | automation/utils/setup/playwrightIsolation.ts:77-87 | clearing removes the eight variables, keeps all others, and forgets the context |
| Isolation.IsolationModule.ActivateIsolation | automation/utils/setup/sharedTestEnvironment.ts:102-146 | clears, sets the variables, applies them and renews the directory |
| Isolation.IsolationModule.CleanupIsolation | automation/utils/setup/sharedTestEnvironment.ts:42-49 | removes the directory and clears, when there is a context |
| Isolation.CleanedUp | automation/utils/setup/sharedTestEnvironment.ts:42-49 | exactly the directories at and below the root are removed |
| Isolation.WriteBackKeepsSetVariables | automation/utils/setup/playwrightIsolation.ts:66-72 | a variable that was set, even to blanks, keeps its value |
| Isolation.WriteBackIsFixedPoint | automation/utils/setup/playwrightIsolation.ts:59-75 | for every environment the written-back environment computes the same context |
| Isolation.CacheStaysCurrent | automation/utils/setup/playwrightIsolation.ts:16-87 | in every run of the operations a cached context equals a new computation |
| Isolation.ActivatedContext | automation/utils/setup/sharedTestEnvironment.ts:112-145 | an activated context has the requested namespace, directory, partition, worker and port 9333 + parallel index |
| Isolation.ActivatedVariable | automation/utils/setup/sharedTestEnvironment.ts:106-146 | the value of every variable after an activation |
| Isolation.ActivationOutsideSharedRuns | automation/utils/setup/sharedTestEnvironment.ts:108-110 | outside of shared runs an activation only clears |
| Isolation.NamespaceIs | automation/utils/setup/sharedTestEnvironment.ts:113-120 | the namespace spells run, file, worker, cut title and retry |
| Isolation.RunIdOfActivation | automation/utils/setup/sharedTestEnvironment.ts:148-154 | the run id of an activation is that of the build server, or names the process |
| Isolation.WorkersAreApart | automation/utils/setup/sharedTestEnvironment.ts:113-121 | two workers that run the same file in the same run never share a namespace |
| JsonData.DeepTraverse | automation/utils/data/dataNormalizer.ts:7-26 | the recursion that fills a new object key by key is the specified traversal, exceptions included |
| JsonData.AssignedPlaces | automation/utils/data/dataNormalizer.ts:13-20 | assigning a key that exists keeps its place, and a new key comes last |
| JsonData.ItemsAreTraversed | automation/utils/data/dataNormalizer.ts:11-12 | an array is traversed item by item |
| JsonData.LastFieldWins | automation/utils/data/dataNormalizer.ts:13-20 | a new key has the new value of the last field renamed to it |
| JsonData.NoOtherKeys | automation/utils/data/dataNormalizer.ts:13-20 | there are no keys but those that fields are renamed to |
| JsonData.DistinctFieldsAreKept | automation/utils/data/dataNormalizer.ts:13-20 | fields whose new keys differ stay in their places |
| JsonData.TraverseIsIdempotent | automation/utils/data/dataNormalizer.ts:7-26 | on every document, for every callback that settles, the second traversal changes nothing, even when keys collide |
| JsonData.ExchangeRatesSettle | automation/utils/data/dataNormalizer.ts:32-55 | the exchange-rate callback settles: an expiration time that was kept stays without usable seconds, and inherited names become texts that stay |
| JsonData.NormalizersAreIdempotent | automation/utils/data/dataNormalizer.ts:32-101 | all three normalizers are idempotent on all documents |
| JsonData.AmountNames | automation/utils/data/dataNormalizer.ts:33-36 | hbarEquiv becomes hbars and centEquiv becomes cents |
| JsonData.AmountValues | automation/utils/data/dataNormalizer.ts:39-51 | scalars other than an expiration time keep their values |
| JsonData.NormalizedDate | automation/utils/data/dataNormalizer.ts:44-49 | an expiration time with seconds becomes their ISO date, or throws when there is none |
| JsonData.OtherExpirationTimes | automation/utils/data/dataNormalizer.ts:44-49 | an expiration time without seconds is traversed, and null throws |
| JsonData.NormalizedThrottle | automation/utils/data/dataNormalizer.ts:62-72 | texts of the two throttle fields become the numbers they are read as, or NaN, and nothing else changes |
| JsonData.RemoveKeys | automation/utils/data/jsonUtils.ts:19-35 | the reduction leaves out the listed keys at every depth and keeps the rest in order |
| JsonData.RemovedExactly | automation/utils/data/jsonUtils.ts:19-35 | whatever its depth, a value is removed iff a key on the way to it is listed |
| JsonData.WithoutInOrder | automation/utils/data/jsonUtils.ts:24-31 | the fields that are left keep their order |
| JsonData.RenameThenRemove | automation/utils/data/jsonUtils.ts:8-9 | removing keys after renaming is renaming after removing the keys that map to them, collisions included |
| JsonData.RenamingBackRestoresIff | automation/utils/data/dataNormalizer.ts:95-100 | a second renaming restores the document iff it takes every key of it back |
| JsonData.FeeKeysComeBackIff | automation/utils/data/dataNormalizer.ts:80-98 | the twelve fee schedule names can be undone for a key iff it is neither one of the new names nor a name that objects inherit |
| Pagination.FetchPaginated | automation/k6/src/lib/pagination.ts:44-92 | for every server: items, results and total are those of the pages up to the last one needed or the first that is not full |
| Pagination.PagesReadIff | automation/k6/src/lib/pagination.ts:52-84 | all pages read but the last are full, and the last is not unless it is the last one needed |
| Pagination.PagesNeededIsLeast | automation/k6/src/lib/pagination.ts:50 | the least number of pages of 100 items that holds the target |
| Pagination.ResultAt | automation/k6/src/lib/pagination.ts:56-84 | one result per page in order: success iff the status was 200, and the length of the items |
| Pagination.CountsAreItemsAndExcess | automation/k6/src/lib/pagination.ts:73-91 | for every server, the counts sum to the total and the excess of the pages read |
| Pagination.CountsSumIff | automation/k6/src/lib/pagination.ts:73-91 | for every server without negative lengths, the counts sum to the total iff no page read counts more than it has |
| Pagination.LengthIsCounted | automation/k6/src/lib/pagination.ts:73-84 | items that are an object of length 5 are counted as five and add none |
| Pagination.HonestFetchIsPrefix | automation/k6/src/lib/pagination.ts:44-92 | from an honest server come the first items, as many as whole pages cover the target, or all there are |
| Pagination.FetchFromHonest | automation/k6/src/lib/pagination.ts:44-92 | fetching from an honest server returns that prefix, which has the target count when there are as many items |
| Version.CompareParts | front-end/src/main/services/update.ts:66-78 | the loop with early returns answers by the first position that is not level, with 0 for missing parts |
| Version.IdentifiersCompare | front-end/src/main/services/update.ts:71-77 | numbers compare by value, and otherwise the shown texts compare |
| Version.NumbersInPreReleases | front-end/src/main/services/update.ts:66-78 | beta.10 is above beta.2, and rc.1 above beta.2 |
| Version.OneWins | front-end/src/main/services/update.ts:66-78 | antisymmetry and totality on all mixed lists, NaN parts included |
| Version.AllLevelMeansPaddedEqual | front-end/src/main/services/update.ts:67-69 | ties exactly for lists that are equal up to missing zeros |
| Version.TransitiveIff | front-end/src/main/services/update.ts:66-78 | on the lists over a family of identifiers the comparison is transitive iff no text straddles two numbers |
| Version.OneAStraddles | front-end/src/main/services/update.ts:71-77 | 1a lies, as text, between 10 and 9 |
| Version.IsNewerVersion | front-end/src/main/services/update.ts:54-87 | main parts decide, then pre-release parts |
| Version.ReleaseIsRead | front-end/src/main/services/update.ts:55-62 | the text of a release is read as its numbers in order |
| Version.PreReleaseIsRead | front-end/src/main/services/update.ts:55-62 | the text of a pre-release is read as its numbers and its identifiers in order, each a number or a text as its characters say |
| Version.ThirdPieceIsIgnored | front-end/src/main/services/update.ts:56 | what follows a second hyphen is ignored |
| Version.OtherTexts | front-end/src/main/services/update.ts:56-61 | a main part that is no numeral is NaN, and an empty pre-release is none |
| Version.IsNewerRelease | front-end/src/main/services/update.ts:54-87 | for the texts of two releases: newer iff at the first difference, with 0 for missing numbers, the number is larger |
| Version.NewerIsTotal | front-end/src/main/services/update.ts:54-87 | of two versions exactly one is newer unless they are equal up to missing zeros |
| Version.NewerIsTransitive | front-end/src/main/services/update.ts:54-87 | newer than newer is newer, without straddling identifiers |
| Version.NumbersAreProper | front-end/src/main/services/update.ts:57 | versions of numbers only satisfy the conditions of both |
| Version.PreReleaseOrderIff | front-end/src/main/services/update.ts:54-87 | for every pre-release and its release: exactly when the code counts it as older, and exactly when as newer |
| Version.PreReleaseIsNeverOlder | front-end/src/main/services/update.ts:54-87 | with alphanumeric identifiers a pre-release is never older, and is newer iff one of them is not 0 |
| Version.PreReleaseCountsAsNewer | front-end/src/main/services/update.ts:54-87 | identifiers that start with a letter, and 1.0.0-1, 1.0.0-0.alpha and 1.0.0-0a, beat their release |
| Clock.TimePicker.Increment | automation/pages/OrganizationPage.ts:736-746 | the click loops move one field by the count, one click at a time, without overshooting |
| Clock.TimePicker.MoveTimeAheadBySeconds | automation/pages/OrganizationPage.ts:735-766 | the fields end at the computed time after the sum of the distances in clicks |
| Clock.NewTimeIsRightIff | automation/pages/OrganizationPage.ts:753-761 | the computed time is valid iff each truncated remainder is a modulo, and is then start plus shift modulo a day |
| Clock.BackOverAMinuteFails | automation/pages/OrganizationPage.ts:753-761 | 61 seconds back from midnight, the seconds field would have to show -1 |
| Clock.AheadIsReachable | automation/pages/OrganizationPage.ts:753-761 | every shift ahead, and every one back by up to a minute, is reached |
| Clock.MoveAhead | automation/pages/OrganizationPage.ts:735-766 | a reachable time is set through valid times only, in at most 23 + 59 + 59 clicks |

## Left out

- ShortenedIsSmallest: requires that none of the given public keys occurs twice in the list. With repeated keys, how much larger the answer can be is proved; for which lists it is not the smallest is not stated, because smallest signer sets of lists with shared keys are smallest hitting sets, so that a condition which a caller could check is not to be had.
- GenerateComplexThresholdKey: key generation is library code; the generated keys are a parameter, and results that need distinct public keys say so.
- InitDatabase: SQL that itself ends the transaction is not modelled.
- RunIsExact: the recorded rows are stated for SQL that leaves the rows of the "Migration" table alone; which migrations are applied is stated for all SQL.
- StampOrderIsNameOrder: local time has a fixed offset to UTC, so jumps of daylight saving time are not modelled; folder names that are not 14 digits of an existing date, whose stamps may be NaN, are not covered.
- EncodeNodeAddressBook: what the Long library, AccountId.fromString and Number make of texts that are no decimal numerals is an arbitrary function; the half-rewritten book that an exception leaves behind is not described.
- NodeSurvivesIff: accounts that have an alias in place of a number are not modelled; of UTF-8 it is used that encoding, decoding and encoding a text is encoding it.
- StringifyNodeAddressBook: inner lists of a message are sequences that are replaced, so aliasing between messages is not captured. The other fields of an entry are not rewritten and not modelled.
- RoundTripIff: the JSON text is a sequence of characters; UTF-8 and unpaired surrogates are not modelled.
- SignatureMapToV1: a node's transactions are taken in the order in which they were signed, which is how the maps list them; transaction ids that are no integers, as all are, keep that order in objects too. A missing or empty signature is not modelled.
- UploadOrganizationSignatures: the checks of status, expiry and signatures are one given answer for each upload; a failing database transaction is not modelled.
- CacheStaysCurrent: no other code writes the environment in between, and paths use "/" as separator; trim is modelled for ASCII blanks.
- RemoveKeys: requires distinct keys in each object, which JavaScript objects have; their special ordering of integer-like keys is not modelled, nor that assigning the key `__proto__`, here and in DeepTraverse, sets no property.
- FeeKeysComeBackIff: the names that objects inherit and their texts are given by the JavaScript engine; they are assumed to be no words of the files.
- ExchangeRatesSettle: the conversion of seconds to an ISO date is an arbitrary partial function.
- CompareParts: numbers are natural numbers in plain digits; exponents, fractions, hexadecimal, surrounding blanks and numbers too large to be exact are not modelled.
- MoveTimeAheadBySeconds: a click changes one field by one; how the widget carries or wraps is user interface code.
- FetchPaginated: timings and k6 checks are not modelled, and the target count is a natural number.
- Reading migration folders (several SQL files in one folder, partial reads), Prisma and SQL text.
- Fee schedules and exchange rates of the special files: the shown names differ from the names that are encoded.
- Protobuf wire encoding, the Hedera SDK, signatures, hashing and encryption: library code.
- addComplexKeyAccountWithNestedThresholds: its group sizes come from floating-point fractions.
- The deep-diff report of compareJsonFiles and parsePropertiesContent.
- NestJS modules, Electron windows, Vue components, k6 scripts and page objects: wiring without unbounded properties.
