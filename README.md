# Airdrop selection and Farcaster user documents, in Dafny

This project models the two pieces of sequential logic in the Songjam
agentic-spaces web application.

**The airdrop modal** (`src/components/AirdropModal.tsx`), with its rendering
stripped away. Its state is two things: the set of selected Farcaster ids and
the total amount of tokens to airdrop. Four handlers change that state:

- clicking a profile row toggles one id;
- the select-all checkbox selects every id or none;
- opening the modal resets the selection to every profile;
- editing the amount field reads a base-10 integer, with commas ignored.

A click on Deploy either stops at the 260,000,000 minimum or hands
`onDeploy` one entry per selected profile. The entries come in profile order
and each carries the profile's first ETH address and the same per-wallet
share. The Deploy button has its own enable condition.

**The `farcaster_users` Firestore collection**
(`src/services/db/farcasterUsers.db.ts`).
`createOrUpdateFarcasterUser` builds a document from a Neynar user payload
and stores it under the fid's decimal string, replacing any document already
there. Two lookups read the collection: by fid and by username.

Files:

- `js_numbers.dfy`: modules `Wrappers` (an `Option` type for `undefined`,
  `null` and `NaN`) and `JsNumbers`. `JsNumbers` models the two JavaScript
  builtins the core relies on: `Number.prototype.toString()` of an integer
  (which turns a fid into a document key) and `parseInt(s, 10)` (which reads
  the amount field).
- `airdrop_modal.dfy`: module `AirdropModal`. The class `AirdropForm` holds
  the component's mutable state. Its methods are the handlers, and each is
  proved against a pure function. The deploy pipeline, the enable condition
  and the amount parsing are pure functions, and the lemmas are stated about
  those functions.
- `farcaster_users.dfy`: module `FarcasterUsers`. `UserDoc` is the document
  builder as a function. `BuildUserDoc` is the builder the way the TypeScript code
  runs it, assigning the optional fields one by one, and it is proved equal
  to `UserDoc`. The class `FarcasterUserStore` holds the collection as a map
  from document id to document, plus the order in which a query returns the
  documents. Both lookups are pure functions over that map and order.

The clock (`Date.now()`) is a parameter `now` of the write. Firestore is
replaced by the in-memory map and order, so there is no I/O.

The entries come from filtering the profiles, not the selected ids. So a Farcaster id shared by several profiles gives one entry per profile. The entries can then outnumber the selected ids, and the shares can add up to more than the total. The model reproduces this. The code has no remainder handling: every entry gets `totalAmount / (selectedProfiles.size || 1)`. That is what
`AirdropModal.Share` and `AirdropModal.HandleDeploy` model.

## Model

| member | source | states |
|---|---|---|
| `AirdropModal.AirdropForm.constructor` | src/components/AirdropModal.tsx:26-27 | The modal starts with an empty selection and a total of 260,000,000. |
| `AirdropModal.AirdropForm.OnOpen` | src/components/AirdropModal.tsx:30-34 | When the modal is open and the profile list is non-empty, the selection becomes exactly the set of all profile ids. Otherwise it is left unchanged. The total is unchanged in both cases. |
| `AirdropModal.AllIds` | src/components/AirdropModal.tsx:32 | Every profile's id is in the set, and every id in the set belongs to some profile. |
| `AirdropModal.OpenedSelection` | src/components/AirdropModal.tsx:30-34 | When the modal is open and there is a profile, every profile id is selected and nothing else is. Otherwise the selection is kept. `OpenThenDeployPaysEveryProfile` builds on it. |
| `AirdropModal.AllIdsCount` | src/components/AirdropModal.tsx:49-52 | There are never more distinct ids than profiles. The two counts are equal exactly when no id repeats. |
| `AirdropModal.Toggled` | src/components/AirdropModal.tsx:38-46 | The toggled id is in the result exactly when it was not in the selection. Every other id keeps its membership. |
| `AirdropModal.ToggleTwice` | src/components/AirdropModal.tsx:38-46 | Toggling the same id twice restores the original selection. |
| `AirdropModal.AirdropForm.ToggleProfile` | src/components/AirdropModal.tsx:38-46 | The method copies the set, adds or deletes the id, and stores the copy. The new selection is `Toggled` of the old one, and the total is unchanged. |
| `AirdropModal.SelectAllClearsFullSelection` | src/components/AirdropModal.tsx:48-54 | Select-all compares sizes, not sets. Starting from every id selected, it clears the selection exactly when the profile ids are distinct. With a repeated id it selects the same set again. |
| `AirdropModal.SelectAllTwice` | src/components/AirdropModal.tsx:48-54 | With distinct ids, two select-all clicks give every id when the selection's size equalled the profile count. In every other case they give the empty set. |
| `AirdropModal.SelectAllToggled` | src/components/AirdropModal.tsx:48-54 | A selection whose size equals the profile count becomes empty. Any other becomes a set holding every profile id and only profile ids. `SelectAllClearsFullSelection` and `SelectAllTwice` state what this size test does. |
| `AirdropModal.AirdropForm.ToggleSelectAll` | src/components/AirdropModal.tsx:48-54 | The selection becomes empty when its size equals the profile count, and the set of all profile ids otherwise. The total is unchanged. |
| `AirdropModal.StripCommas` | src/components/AirdropModal.tsx:57 | The result has no commas. Every other character of the input is kept, and nothing else is added. |
| `AirdropModal.StripCommasAppend` | src/components/AirdropModal.tsx:57 | Removing commas from a concatenation equals removing them from each part. |
| `AirdropModal.AmountAfterInput` | src/components/AirdropModal.tsx:56-63 | The empty field gives 0. Any other field gives either the old amount or the number `parseInt` reads once commas are removed, and it gives that number whenever there is one. `CommasIgnored`, `NoDigitKeepsAmount` and `DisplayedAmountReadsBack` state its behaviour on whole classes of input. |
| `JsNumbers.ParseInt` | src/components/AirdropModal.tsx:57 | `parseInt(s, 10)` finds a number exactly when a digit follows the leading white space and the optional sign. A negative result needs a leading minus sign. |
| `JsNumbers.ParseIntAfterToString` | src/components/AirdropModal.tsx:57 | `parseInt` reads back every integer's decimal string, and any non-digit text after it is ignored. |
| `JsNumbers.ParseIntNeedsDigit` | src/components/AirdropModal.tsx:57-58 | Text without a digit parses as NaN. |
| `AirdropModal.AirdropForm.ChangeAmount` | src/components/AirdropModal.tsx:56-63 | The total becomes `AmountAfterInput` of the old total and the field's text. The selection is unchanged. |
| `AirdropModal.CommasIgnored` | src/components/AirdropModal.tsx:56-63 | When the field is non-empty even without the comma, removing a comma leaves the resulting amount unchanged. |
| `AirdropModal.OnlyEmptyFieldGivesZero` | src/components/AirdropModal.tsx:56-63 | A field holding only commas leaves the amount unchanged. Only the literally empty field sets it to 0. |
| `AirdropModal.NoDigitKeepsAmount` | src/components/AirdropModal.tsx:56-63 | A non-empty field without a digit leaves the amount unchanged. |
| `AirdropModal.FormatAmount` | src/components/AirdropModal.tsx:81 | The displayed text is non-empty and starts with '-' exactly for a negative amount. `DisplayedAmountReadsBack` proves that it parses back to the amount. |
| `AirdropModal.DisplayedAmountReadsBack` | src/components/AirdropModal.tsx:116-119 | Re-entering the amount exactly as the field displays it (en-US grouping with commas) gives back that amount, negatives included. |
| `AirdropModal.MinimumReadsBack` | src/components/AirdropModal.tsx:56-66 | The text "260,000,000" sets the amount to the 260,000,000 minimum. |
| `AirdropModal.FirstAddress` | src/components/AirdropModal.tsx:74 | An entry's address is the profile's first ETH address. It is absent (`undefined`) exactly when the profile has no address. |
| `AirdropModal.Share` | src/components/AirdropModal.tsx:75 | With a non-empty selection, the share times the selection size is the total. With nothing selected, the share is the whole total. A positive total gives a positive share. |
| `AirdropModal.SelectedEntries` | src/components/AirdropModal.tsx:71-76 | There are no more entries than profiles, and every entry carries the given amount. |
| `AirdropModal.EntriesFollowSelectedProfiles` | src/components/AirdropModal.tsx:71-76 | Entry k belongs to the k-th selected profile. The selected profiles are taken in increasing position, each exactly once, and none is skipped. Each entry carries that profile's first address and the common amount. |
| `AirdropModal.EntryCount` | src/components/AirdropModal.tsx:71-76 | With distinct profile ids, the number of entries equals the number of selected ids that belong to some profile. |
| `AirdropModal.UnmatchedIdShrinksEntries` | src/components/AirdropModal.tsx:75 | With distinct profile ids, a selected id that no profile has still counts in the divisor, so there are fewer entries than selected ids. |
| `AirdropModal.HandleDeploy` | src/components/AirdropModal.tsx:65-79 | A click is rejected exactly when the total is below 260,000,000. Otherwise every entry gets the same amount, the total divided by the selection size (or by 1 if nothing is selected), and that amount is positive. |
| `AirdropModal.OpenThenDeployPaysEveryProfile` | src/components/AirdropModal.tsx:30-76 | Open the modal on a non-empty list, then deploy a total at or above the minimum. There is exactly one entry per profile, in profile order, each with that profile's first address. |
| `AirdropModal.DeployEnabled` | src/components/AirdropModal.tsx:229 | An enabled button means nothing is deploying or signing, the selection is non-empty and the total is at least 260,000,000. `EnabledButtonDeploys` ties it to the outcome of a click. |
| `AirdropModal.EnabledButtonDeploys` | src/components/AirdropModal.tsx:229 | An enabled Deploy button never reaches the alert. When nothing is deploying or signing and the selection is non-empty, the button is enabled exactly when a click would deploy. |
| `JsNumbers.NatToString` | src/services/db/farcasterUsers.db.ts:49 | The decimal string of a non-negative integer is non-empty, is all digits and has no leading zero. |
| `JsNumbers.IntToString` | src/services/db/farcasterUsers.db.ts:49 | The string is non-empty and starts with '-' exactly for a negative integer. |
| `JsNumbers.NatToStringValue` | src/services/db/farcasterUsers.db.ts:49 | The digits of `n.toString()` have the value `n`. |
| `JsNumbers.IntToStringInjective` | src/services/db/farcasterUsers.db.ts:49-50 | Distinct fids get distinct document keys. |
| `FarcasterUsers.CountOrZero` | src/services/db/farcasterUsers.db.ts:65-66 | A missing follower or following count becomes 0. A count that is present is kept, because 0 maps to 0. |
| `FarcasterUsers.FirstXAccount` | src/services/db/farcasterUsers.db.ts:56-58 | The result is the position of an account on platform "x", and no earlier account is on "x". It is absent exactly when no account is on "x". |
| `FarcasterUsers.XUsername` | src/services/db/farcasterUsers.db.ts:56-58 | There is no X username exactly when the account list is missing or holds no account on platform "x". Otherwise it is the username of an account on "x"; `XUsernameIsFirstX` proves it is the first such account. |
| `FarcasterUsers.XUsernameIsFirstX` | src/services/db/farcasterUsers.db.ts:56-58 | The X username is the username of the first account whose platform is "x". |
| `FarcasterUsers.LaterXAccountsIgnored` | src/services/db/farcasterUsers.db.ts:56-58 | Accounts after the first "x" account, including further "x" accounts, do not change the X username. |
| `FarcasterUsers.UserDoc` | src/services/db/farcasterUsers.db.ts:53-83 | `fid`, `username` and `custodyAddress` are copied unchanged, and missing counts become 0. `createdAt` is the existing document's `createdAt` when one exists, and `now` otherwise. `updatedAt` is `now`. `displayName` and `pfpUrl` are present exactly when the input is non-empty, `verifications` exactly when it is a non-empty list, and `xUsername` exactly when the first "x" account's username is non-empty. When present, each holds the input value. |
| `FarcasterUsers.BuildUserDoc` | src/services/db/farcasterUsers.db.ts:60-83 | The builder sets the required fields, then assigns each optional field only when it has a value. The result equals `UserDoc`. |
| `FarcasterUsers.FidKey` | src/services/db/farcasterUsers.db.ts:49 | The key is non-empty and starts with '-' exactly for a negative fid. `parseInt` reads the fid back from it, so distinct fids get distinct keys. |
| `FarcasterUsers.LookupByFid` | src/services/db/farcasterUsers.db.ts:101-109 | The result is null exactly when no document exists at `fid.toString()`. Otherwise it is that document. |
| `FarcasterUsers.StoreAfterWrite` | src/services/db/farcasterUsers.db.ts:85 | After a write, the store holds the old keys plus the fid's key. The document under that key carries the fid and `updatedAt` = `now`. Every other key keeps its document. |
| `FarcasterUsers.OrderAfterWrite` | src/services/db/farcasterUsers.db.ts:85 | The query order the model chooses for the username query after a write (not Firestore's order; see "## Left out"): the old order is a prefix of the new one, which is at most one longer, and a fid with no document yet is appended at the end. |
| `FarcasterUsers.WriteThenLookup` | src/services/db/farcasterUsers.db.ts:85-87 | After a write, looking up the written fid gives exactly the built document, which is also what the write returns. Optional fields that were not rebuilt are gone. Every other fid gives what it gave before. |
| `FarcasterUsers.WriteKeepsWellFormed` | src/services/db/farcasterUsers.db.ts:85 | After a write, the query order still lists every stored document exactly once. |
| `FarcasterUsers.CreatedAtSurvivesUpdates` | src/services/db/farcasterUsers.db.ts:67-68 | Across any number of writes to one fid, the document keeps the `createdAt` of the first write, or of the document already stored. Its `updatedAt` is the time of the last write. |
| `FarcasterUsers.OtherFidsUntouched` | src/services/db/farcasterUsers.db.ts:49-50 | Writes to other fids leave a fid's document as it was. |
| `FarcasterUsers.FirstWithUsername` | src/services/db/farcasterUsers.db.ts:123-133 | The result is the position of a stored document with that username, and no earlier document has that username. It is absent exactly when no listed document has it. |
| `FarcasterUsers.LookupByUsername` | src/services/db/farcasterUsers.db.ts:119-138 | A result is a stored document with that username. The result is null exactly when no listed document has the username. `LookupByUsernameFinds` adds that it is the first match in query order. |
| `FarcasterUsers.LookupByUsernameFinds` | src/services/db/farcasterUsers.db.ts:123-133 | The result is null exactly when no stored document has the username. Otherwise it is the first document with that username in query order. |
| `FarcasterUsers.WrittenUsernameFound` | src/services/db/farcasterUsers.db.ts:119-133 | After a write, looking up its username finds a document with that username. |
| `FarcasterUsers.FarcasterUserStore.constructor` | src/services/db/farcasterUsers.db.ts:26 | The store starts with no documents and an empty query order, which satisfies the order invariant. |
| `FarcasterUsers.FarcasterUserStore.CreateOrUpdate` | src/services/db/farcasterUsers.db.ts:32-92 | The method reads the document under the fid, builds the new one, and replaces the stored document whole (`setDoc` without merge). It returns the stored document. Other keys are unchanged, a new key joins the end of the query order, and the order invariant is kept. |

## Left out

- Rendering is not modelled: the JSX, `framer-motion`, the loading and empty states, and the `onClose` button. The `alert` is modelled only as the `Rejected` outcome.
- The per-wallet figures on screen are not modelled (`individualAmount` and the per-row amount). They are display-only.
- `AirdropModal.HandleDeploy`: the per-wallet amount is an exact `real` quotient. JavaScript's floating-point division and its rounding are not modelled, so nothing is claimed about the allocations summing to the total.
- `AirdropModal.AirdropForm.ChangeAmount`: `parseInt` is modelled on unbounded integers. JavaScript loses precision beyond 2^53, and "-0" becomes 0 here.
- `AirdropModal.FormatAmount`, `AirdropModal.DisplayedAmountReadsBack`: `toLocaleString()` uses the browser's locale, but only the en-US rendering is modelled: ',' between thousands groups and a hyphen-minus sign. Locales that group with '.' or spaces, or write U+2212 for the minus sign, are not modelled. The read-back lemma holds only for the en-US rendering.
- `FarcasterUsers.FidKey`: `toString` is modelled for integer fids only. Fractional fids and the exponent form used from 1e21 up are not.
- `JsNumbers.NatToString`, `JsNumbers.NatToStringValue`, `JsNumbers.ParseIntAfterToString`: `toString` and `parseInt` are modelled on unbounded integers. JavaScript agrees with the model only for safe integers (|n| ≤ 2^53 − 1). Above 2^53, `toString` prints rounded digits padded with zeros (`2**60` prints as "1152921504606847000"). From 1e21 up it prints the exponent form "1e+21", which `parseInt` reads as 1. Farcaster fids are far below these bounds.
- `FarcasterUsers.CountOrZero`: a NaN count, which `|| 0` also turns into 0, is not modelled.
- Firestore is not modelled: the async calls, the error logging, and the try/catch that rethrows "Failed to …" errors. A document written by other code without a `createdAt` is not modelled either.
- `FarcasterUsers.CreatedAtSurvivesUpdates`: each `createOrUpdateFarcasterUser` call is one atomic step here, so the lemma holds only for calls that do not overlap. The code awaits `getDoc` before `setDoc`. Two overlapping calls for one fid can both see no document, and then the later call's `now` replaces the first `createdAt`.
- `FarcasterUsers.OrderAfterWrite`, `FarcasterUsers.FarcasterUserStore.CreateOrUpdate`: Firestore returns query results ordered by document id. The model instead appends a new document at the end of the query order. So when two documents share a username, the model's lookup can return a different one than Firestore. For example, write fid 9 and then fid 10: the model returns fid 9's document, but Firestore returns fid 10's, because "10" sorts before "9". The username lookup lemmas hold for any order that lists each document once.
- The rest of the repository is not part of this model. That covers the live-audio DJ console and player, the auth provider composition, the QR-code helper, and the two HTTP proxy routes. They are SDK and HTTP glue.
