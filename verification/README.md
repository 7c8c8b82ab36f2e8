# Desktop wallet: verified model of the page logic and the API client bookkeeping

This project models, in Dafny, the parts of the Alephium desktop wallet's
front end that compute something, rather than draw it or call the SDK:

- the mnemonic security check (`CheckWordsPage.tsx`). The words are offered
  in alphabetical order, each with a `word-index` key. A picked word is
  appended to the selection. A picked word can be removed, or dragged in
  front of another picked word. The wallet is saved only when the picked
  words spell the mnemonic.
- the address bookkeeping of the API client (`api-clients.ts`). This covers
  the available balance after a details fetch, and the merge of a fetched
  page of confirmed transactions into the address's list (replace, prepend
  or append, deduplicated by hash), with `loadedPage` and `lastUsed`. It also
  covers the sweep fees and the recording of a pending transaction after a
  send.
- the wallet-creation form (`CreateWalletPage.tsx`): the name, password and
  retype errors, and when "Continue" is enabled.
- the navigation button (`NavigationButton.tsx`): when it is highlighted and
  what a click does.

Files: `wrappers.dfy` (Option), `text.dfy` (the JavaScript string operations
used: default sort order, decimal formatting, `split`, `join`),
`check_words.dfy`, `api_clients.dfy`, `create_wallet.dfy`,
`navigation_button.dfy`. State that the source updates in place is a class:
`CheckWordsSession` holds the React state of the check page,
`Address` holds the fields that the API client assigns, and
`CreateWalletForm` holds the form's state. A method whose effect is a
computation (the reorder, the merge, the balance, the errors) is specified
against a pure function, and the properties are lemmas about that function.
A method that only stores what it is given (selecting a word, registering an
element, starting a drag, the closest key, the retype field, the pending
transaction) states its new state directly.

JavaScript behaviour that is modelled explicitly:
- `split(' ')` always yields at least one piece, so the empty mnemonic gives `[""]`.
- `Array.prototype.toString` joins with commas.
- `findIndex` answers -1 when nothing matches, and `slice` reads a negative index from the end.
- An empty `link` is falsy in `if (link)`, while `startsWith("")` holds.
- `String.prototype.length` counts UTF-16 code units (`Text.Utf16Length`), so a character above U+FFFF counts twice in the wallet-name check.

Two behaviours of the code are easy to misread.
A click navigates only when `link` is a non-empty string, not whenever a
link is set. So an empty link highlights the button on every page while its
click falls through to `onClick` (`EmptyLinkActiveButInert`). The validity
test compares comma-joined strings. It therefore means "the picked words are
the mnemonic in order" only for words without commas, and it also accepts an
empty selection for the empty mnemonic (`AreWordsValidMeansInOrder`).

## Model

| member | source | states |
|---|---|---|
| `CheckWords.AlphabeticallyOrdered` | src/pages/WalletManagement/CheckWordsPage.tsx:243-245 | the result is sorted by the string order of the default `sort` and is a permutation (same multiset) of the input; the input is a value and so is left unchanged |
| `Text.LessEq` | src/pages/WalletManagement/CheckWordsPage.tsx:244 | the default `sort` order: a prefix sorts before or equal to any extension, and a non-empty string is below another only if its first character is not greater |
| `Text.SortedUnique` | src/pages/WalletManagement/CheckWordsPage.tsx:244 | two sorted permutations of the same list are equal, since the order is total and antisymmetric |
| `CheckWords.AlphabeticallyOrderedIsTheSort` | src/pages/WalletManagement/CheckWordsPage.tsx:243-245 | every sorted permutation of the words is the list `AlphabeticallyOrdered` returns, so it is the result of `slice().sort()` |
| `Text.Split` | src/pages/WalletManagement/CheckWordsPage.tsx:54 | `split(' ')` yields at least one piece and no piece contains the separator |
| `Text.SplitJoin` | src/pages/WalletManagement/CheckWordsPage.tsx:54 | splitting the join of at least one part, none holding the separator, gives back the parts (the other half of the round trip) |
| `Text.JoinSplit` | src/pages/WalletManagement/CheckWordsPage.tsx:54 | joining the pieces of a split with the separator gives back the string |
| `Text.NatToString` | src/pages/WalletManagement/CheckWordsPage.tsx:59 | the decimal writing of `${i}` in the key: at least one character, at least two from 10 on, all of them digits |
| `Text.NatToStringInjective` | src/pages/WalletManagement/CheckWordsPage.tsx:59 | two indices written the same in decimal are equal |
| `CheckWords.WordKeyOf` | src/pages/WalletManagement/CheckWordsPage.tsx:59 | the key `${word}-${i}` ends, after its last dash, in the decimal writing of the index |
| `CheckWords.WordKeysDiffer` | src/pages/WalletManagement/CheckWordsPage.tsx:59 | keys `${word}-${i}` built for different indices differ, whatever the words (even words containing dashes) |
| `CheckWords.OrderedWordList` | src/pages/WalletManagement/CheckWordsPage.tsx:54-61 | the word list has the mnemonic's length, holds the mnemonic's words as a multiset in sorted order, entry i has key `word-i`, and all keys are distinct even for duplicate words |
| `CheckWords.CheckWordsSession.constructor` | src/pages/WalletManagement/CheckWordsPage.tsx:54-70 | the page starts with the keyed word list, an empty selection, an element map with a null entry per mnemonic word, no drag and no closest key |
| `CheckWords.RemainingWords` | src/pages/WalletManagement/CheckWordsPage.tsx:153-155 | an entry is remaining iff it is in the word list and not selected |
| `CheckWords.RemainingWordsSubsequence` | src/pages/WalletManagement/CheckWordsPage.tsx:154-155 | the remaining words keep the word list's order |
| `CheckWords.RemainingWordsInOrder` | src/pages/WalletManagement/CheckWordsPage.tsx:154-155 | the remaining words of an alphabetical list are in alphabetical order |
| `CheckWords.CheckWordsSession.Remaining` | src/pages/WalletManagement/CheckWordsPage.tsx:153-155 | the page offers exactly the unselected word-list entries, alphabetically |
| `CheckWords.CheckWordsSession.SelectWord` | src/pages/WalletManagement/CheckWordsPage.tsx:157 | clicking a remaining word appends it to the end of the selection; the selection stays drawn from the word list with distinct keys |
| `CheckWords.RemoveKey` | src/pages/WalletManagement/CheckWordsPage.tsx:79 | the filter is no longer than the selection and no entry left has the removed key |
| `CheckWords.RemoveKeyMembers` | src/pages/WalletManagement/CheckWordsPage.tsx:79 | removing by key drops exactly the entries with that key and keeps every other entry |
| `CheckWords.RemoveKeySubsequence` | src/pages/WalletManagement/CheckWordsPage.tsx:79 | the entries kept by the removal stay in their order |
| `CheckWords.CheckWordsSession.RemoveSelectedWord` | src/pages/WalletManagement/CheckWordsPage.tsx:74-83 | while dragging only the drag flag is cleared; otherwise the entries with the word's key leave the selection and its element entry becomes null |
| `CheckWords.CheckWordsSession.RegisterElement` | src/pages/WalletManagement/CheckWordsPage.tsx:170-172 | a mounted element is recorded under the word's key; a null element changes nothing |
| `CheckWords.CheckWordsSession.StartDrag` | src/pages/WalletManagement/CheckWordsPage.tsx:173 | starting a drag sets the drag flag |
| `CheckWords.CheckWordsSession.SetClosestWordKey` | src/pages/WalletManagement/CheckWordsPage.tsx:131 | the closest key is the one the drag handler found |
| `CheckWords.FindIndex` | src/pages/WalletManagement/CheckWordsPage.tsx:139-140 | `findIndex` gives the first index holding the key, or -1 when no entry holds it |
| `CheckWords.SliceIndex` | src/pages/WalletManagement/CheckWordsPage.tsx:146 | `slice` keeps an index within bounds as it is and counts a negative one from the end |
| `CheckWords.InsertionIndex` | src/pages/WalletManagement/CheckWordsPage.tsx:139-146 | the position at which the dragged word is put back lies within the filtered selection |
| `CheckWords.InsertAt` | src/pages/WalletManagement/CheckWordsPage.tsx:146 | the spread of `slice(0, i)`, the word and `slice(i)` for an index within bounds; its length and contents are stated by `MultisetInsertAt`, `FindIndexOfInserted` and `RemoveKeyInsertAt` |
| `CheckWords.MultisetInsertAt` | src/pages/WalletManagement/CheckWordsPage.tsx:146 | the spread has one entry more than the list and the multiset of the list plus the word |
| `CheckWords.FindIndexOfInserted` | src/pages/WalletManagement/CheckWordsPage.tsx:146 | a word put into a list lacking its key sits at the index and is the first entry with its key |
| `CheckWords.RemoveKeyInsertAt` | src/pages/WalletManagement/CheckWordsPage.tsx:145-146 | filtering the word's key out again gives back the list it was put into |
| `CheckWords.MoveBefore` | src/pages/WalletManagement/CheckWordsPage.tsx:145-146 | the reorder has one entry more than the filtered selection, and the dragged word is the first entry with its key, at the insertion index |
| `CheckWords.MoveBeforeKeepsOthers` | src/pages/WalletManagement/CheckWordsPage.tsx:145-146 | after the reorder, the words other than the dragged one are exactly the previous ones in their previous order |
| `CheckWords.MoveBeforePermutation` | src/pages/WalletManagement/CheckWordsPage.tsx:145-146 | for a picked word, the reorder has the same length and the same multiset as the selection |
| `CheckWords.KeysDistinctInsert` | src/pages/WalletManagement/CheckWordsPage.tsx:146 | putting a word with a fresh key back into a list with distinct keys keeps them distinct |
| `CheckWords.MoveBeforeKeysDistinct` | src/pages/WalletManagement/CheckWordsPage.tsx:145-146 | the reordered selection still has distinct keys |
| `CheckWords.MoveBeforePlacesWord` | src/pages/WalletManagement/CheckWordsPage.tsx:139-146 | dropped on another picked word, the dragged word lands immediately before that neighbour, whether it moved left or right |
| `CheckWords.MoveBeforeUnknownNeighbour` | src/pages/WalletManagement/CheckWordsPage.tsx:139-146 | a neighbour key that names no picked word puts the dragged word just before the last other word (`findIndex` -1 read by `slice`) |
| `CheckWords.CheckWordsSession.DragEnd` | src/pages/WalletManagement/CheckWordsPage.tsx:136-149 | called as the drag end calls it, with the closest key as the neighbour key: with no closest key the selection is unchanged; otherwise it becomes the reorder before the closest key's word and the closest key is cleared; either way the selection keeps its multiset |
| `CheckWords.Words` | src/pages/WalletManagement/CheckWordsPage.tsx:183 | the `map((w) => w.word)` of the picked entries, entry by entry |
| `Text.Join` | src/pages/WalletManagement/CheckWordsPage.tsx:183 | `toString`'s join holds a comma iff there are two or more parts or some part holds one |
| `CheckWords.AreWordsValid` | src/pages/WalletManagement/CheckWordsPage.tsx:183 | picked words equal to the mnemonic's words always pass the test |
| `Text.JoinInjective` | src/pages/WalletManagement/CheckWordsPage.tsx:183 | two non-empty word lists without commas that join to the same string are equal |
| `CheckWords.AreWordsValidMeansInOrder` | src/pages/WalletManagement/CheckWordsPage.tsx:183 | for words without commas, the joined-string test holds iff the picked words are the mnemonic's words in order, or both the selection and the mnemonic are empty |
| `CheckWords.CheckWordsSession.CreateEncryptedWallet` | src/pages/WalletManagement/CheckWordsPage.tsx:185-192 | the wallet is saved iff the words are valid and the SDK wallet is present; for a non-empty mnemonic without commas, a saved wallet's picked words are the mnemonic in order |
| `ApiClients.AvailableBalance` | src/utils/api-clients.ts:50-51 | with both fields present the available balance is balance minus locked balance; a missing balance keeps the previous value and a missing locked balance subtracts nothing |
| `ApiClients.Address.FetchAddressDetails` | src/utils/api-clients.ts:44-54 | the details are stored, the available balance is updated as above, and the data is returned |
| `ApiClients.HasHash` | src/utils/api-clients.ts:73 | the `find` of the filter succeeds iff some confirmed transaction has the hash |
| `ApiClients.NewTransactions` | src/utils/api-clients.ts:72-74 | a page entry is new iff no confirmed transaction has its hash, and there are no more new entries than page entries |
| `ApiClients.NewTransactionsSingle` | src/utils/api-clients.ts:72-74 | a one-entry page keeps its entry iff its hash is unknown |
| `ApiClients.NewTransactionsAppend` | src/utils/api-clients.ts:72-74 | the filter of two pages joined is the join of their filters, so the new entries keep page order |
| `ApiClients.NewTransactionsCount` | src/utils/api-clients.ts:72-74 | an entry with an unknown hash is kept exactly as many times as the page holds it; an entry with a known hash never |
| `ApiClients.NewTransactionsUnique` | src/utils/api-clients.ts:72-74 | the new entries of a page without repeated hashes have no repeated hashes |
| `ApiClients.UniqueHashesAppend` | src/utils/api-clients.ts:75-78 | joining two hash-unique lists that share no hash, in either order, is hash-unique |
| `ApiClients.MergePage` | src/utils/api-clients.ts:61-82 | a merge never shortens the list and adds at most the page's entries; the loaded page stays or becomes the fetched page |
| `ApiClients.MergeInitialPage` | src/utils/api-clients.ts:61-70 | a non-empty first page on an empty list replaces the list and sets the loaded page to 1 |
| `ApiClients.MergeLaterPage` | src/utils/api-clients.ts:71-81 | a page above 1 keeps the old list as prefix, followed by the filtered page (`NewTransactions`: the page entries with unknown hashes, in page order), and becomes the loaded page |
| `ApiClients.MergeNewerFirstPage` | src/utils/api-clients.ts:62-78 | a first page whose newest hash differs from the current newest puts the filtered page, in page order, in front of the old list and keeps the loaded page; when the page's newest hash is unknown, it becomes the list's head (and so `lastUsed`) |
| `ApiClients.MergeNothingNew` | src/utils/api-clients.ts:61-82 | a first page that is empty or starts with the current newest hash, or a page below 1, leaves the list and the loaded page unchanged |
| `ApiClients.MergeKeepsAndAddsFresh` | src/utils/api-clients.ts:68-78 | the old list survives every merge as a prefix or a suffix, and every added entry has a hash the old list lacked |
| `ApiClients.MergeKeepsHashesUnique` | src/utils/api-clients.ts:68-78 | a hash-unique list merged with a hash-unique page stays hash-unique |
| `ApiClients.NextPageAdvances` | src/utils/api-clients.ts:90-92 | once a page is loaded, fetching the next page appends to the list and advances the loaded page by one |
| `ApiClients.Address.FetchConfirmedTransactions` | src/utils/api-clients.ts:56-88 | the list and loaded page become the merge of the fetched page; `lastUsed` becomes the newest transaction's timestamp, or stays when the list is empty |
| `ApiClients.Address.FetchConfirmedTransactionsNextPage` | src/utils/api-clients.ts:90-92 | fetching the next page merges page `loadedPage + 1` |
| `ApiClients.GasCost` | src/utils/api-clients.ts:96 | the gas cost of one unsigned transaction: `BigInt(tx.gasPrice) * BigInt(tx.gasAmount)` on the parsed values |
| `ApiClients.FeesFrom` | src/utils/api-clients.ts:96 | with non-negative gas prices and amounts the fold never goes below its start |
| `ApiClients.FeesFromIsSum` | src/utils/api-clients.ts:96 | the `reduce` from an accumulator adds the sum of `gasPrice * gasAmount` to it |
| `ApiClients.TotalGasCostAppend` | src/utils/api-clients.ts:96 | the fees of two batches add up |
| `ApiClients.TotalGasCostNonNegative` | src/utils/api-clients.ts:96 | non-negative gas prices and amounts give non-negative fees |
| `ApiClients.BuildSweepTransactions` | src/utils/api-clients.ts:94-102 | the unsigned transactions are returned with fees equal to the sum of their gas costs, 0 for none |
| `ApiClients.Address.SignAndSendTransaction` | src/utils/api-clients.ts:104-129 | a pending transaction from this address, with the send's txId, is appended only when the response carries data; the response data is returned |
| `CreateWallet.IsTaken` | src/pages/WalletManagement/CreateWalletPage.tsx:74 | `walletNames?.includes(name)`: false when the stored list is missing, otherwise membership |
| `CreateWallet.WalletNameError` | src/pages/WalletManagement/CreateWalletPage.tsx:69-80 | under 3 UTF-16 code units gives "Wallet name is too short", before the duplicate check; a stored name gives "Wallet name already taken"; the error is empty iff neither applies |
| `Text.Utf16Length` | src/pages/WalletManagement/CreateWalletPage.tsx:72 | `length` counts UTF-16 code units: at least one and at most two per character, zero only for the empty string |
| `CreateWallet.TwoAstralCharactersAreLongEnough` | src/pages/WalletManagement/CreateWalletPage.tsx:72 | a name of two characters above U+FFFF is four code units long and gets no error |
| `CreateWallet.PasswordError` | src/pages/WalletManagement/CreateWalletPage.tsx:54-67 | an empty password has no error; a score below 1 gives "Password is too weak", 1 to 2 "Insecure password"; the error is empty iff the password is empty or scores 3 or more |
| `CreateWallet.RetypeError` | src/pages/WalletManagement/CreateWalletPage.tsx:121 | "Passwords are different" shows iff the retype is non-empty and differs from the password |
| `CreateWallet.IsNextButtonActive` | src/pages/WalletManagement/CreateWalletPage.tsx:82-87 | an active button means a non-empty password and name, and a retype field without error |
| `CreateWallet.ContinueEnabledIff` | src/pages/WalletManagement/CreateWalletPage.tsx:54-87 | after both handlers, Continue is enabled iff the name has 3 or more UTF-16 code units and is not stored, the password is non-empty with score 3 or more, and the retype equals it |
| `CreateWallet.CreateWalletForm.constructor` | src/pages/WalletManagement/CreateWalletPage.tsx:46-52 | the form starts from the context's name and password with no errors, and the retype field holds the password |
| `CreateWallet.CreateWalletForm.UpdatePassword` | src/pages/WalletManagement/CreateWalletPage.tsx:54-67 | the typed password is stored with the error its score gives |
| `CreateWallet.CreateWalletForm.UpdateWalletName` | src/pages/WalletManagement/CreateWalletPage.tsx:69-80 | the typed name is always stored, with its name error (length in UTF-16 code units) |
| `CreateWallet.CreateWalletForm.UpdatePasswordCheck` | src/pages/WalletManagement/CreateWalletPage.tsx:120 | the retype field stores what is typed |
| `CreateWallet.CreateWalletForm.RetypeFieldError` | src/pages/WalletManagement/CreateWalletPage.tsx:121 | the retype field shows an error iff it is non-empty and differs from the password |
| `CreateWallet.CreateWalletForm.ContinueEnabled` | src/pages/WalletManagement/CreateWalletPage.tsx:82-87 | Continue enabled implies a non-empty password without error, equal to the retype, and a non-empty name without error |
| `NavigationButton.IsActive` | src/components/NavigationButton.tsx:45 | never active without a link; with one, active iff every character of the link matches the pathname at the same position |
| `NavigationButton.ActiveOnLongerSegment` | src/components/NavigationButton.tsx:45 | the test is a plain string prefix: `/settings` is active on `/settings-advanced`, `/settings/` is not on `/settings` |
| `NavigationButton.IsTruthy` | src/components/NavigationButton.tsx:37 | `if (link)` for an optional string: set and not empty |
| `NavigationButton.HandleClick` | src/components/NavigationButton.tsx:36-42 | a non-empty link navigates to it and does not call `onClick`; otherwise `onClick`, when given, is called exactly once; with neither nothing happens |
| `NavigationButton.EmptyLinkActiveButInert` | src/components/NavigationButton.tsx:36-45 | an empty link is active on every pathname, yet a click on it never navigates |

## Left out

- `CheckWords.AreWordsValidMeansInOrder`: holds for mnemonics without commas only, because the source compares comma-joined strings. The predicate `AreWordsValid` itself models the comparison exactly.
- The closest-neighbour search during a drag (src/pages/WalletManagement/CheckWordsPage.tsx:85-134) is not modelled. It uses DOM geometry, floating-point `Math.hypot` and `throttle` timing. Its outcome, a key or `""`, is the parameter of `SetClosestWordKey`.
- Text.LessEq: the default `sort` compares UTF-16 code units, while Dafny characters are Unicode scalar values. The two orders agree on characters of the Basic Multilingual Plane only.
- `selectedWords.includes(w)` tests object identity; the model uses value equality. The two agree because every word-list entry has its own key.
- `plainWallet.encrypt` and `Storage.save` are SDK calls, and `setWallet` stores the wallet in the global context; `CreateEncryptedWallet` returns whether they would run. The snackbar and step navigation of `handleButtonNext` (CheckWordsPage.tsx:194-200) are presentation.
- Rendering is not modelled: the valid/error class names, the info boxes, the field `isValid` indicators, the disabled retype field and the styled components.
- `handleNextButtonClick` (CreateWalletPage.tsx:89-94) copies the name and password into the wallet context, sets the current wallet name in the global context and moves to the next step. These are context and navigation calls outside this model.
- Client construction, `init`, console logging and the `try`/`catch` that returns `false` (src/utils/api-clients.ts:24-43, 140-143) are I/O. The explorer and node responses are parameters of the methods.
- `BigInt` parsing of the balance strings (api-clients.ts:50-51): a balance is modelled as already parsed, `None` when the field is missing or empty. The exception `BigInt` throws on a malformed balance string is not modelled.
- `BigInt` parsing of `gasPrice` and `gasAmount` in the fee `reduce` (api-clients.ts:96): the model takes them as integers. The exception `BigInt` throws on a malformed string is not modelled.
- `ApiClients.Address.FetchConfirmedTransactionsNextPage`: each fetch is modelled as one step at the time the response arrives. The source reads `loadedPage` before the `await`, so two overlapping next-page calls both request the same page; that interleaving is not captured.
- `transactionSign` and `transactionSend` are SDK calls. Their inputs (`txId`, `unsignedTx`, the private key) are dropped, and the send's response is a parameter.
- The `addPendingTransaction` function lives in the address context, which is not part of this model. Its effect is modelled as appending the record to `pendingTransactions`.
- `new Date().getTime()` is the parameter `now`. The zxcvbn strength score is the parameter `score`.
- The password-strength estimation itself (zxcvbn) is not part of this model.
- `WalletsSettingsSection.tsx`, `PasswordConfirmation.tsx`, `SideModal.tsx` and `CheckDeployContractTx.tsx` are not part of this model. They are storage wrappers, modal state and rendering.
