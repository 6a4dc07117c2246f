# router-sdk-example: the amount utilities and the page logic, in Dafny

The repository is an example Next.js page for the Skip router SDK. A user
picks a source chain and asset and a destination chain and asset, types an
amount and a recipient address, asks the router for a route, and executes it.
This project models the parts of that page which are pure logic:

- the number utilities of `utils/number.ts`: adding thousands separators
  (`formatNumberWithCommas`), removing them (`formatNumberWithoutCommas`),
  and converting a decimal amount into base units as an integer string
  (`getAmountWei`);
- the page logic of `pages/index.tsx`:
  - the `sourceAsset` lookup;
  - the `amountIn` value;
  - the route query's guard and its `enabled` flag;
  - the "Execute Route" disable predicate;
  - the `userAddresses` map, which is a left fold over the route's chain IDs.

Modules:

- `Wrappers`: `Option`, which stands for `undefined`.
- `Text`: character classes, `split` and `join`.
- `NumberFormat`: the comma utilities. The regular expression
  `/\B(?=(\d{3})+(?!\d))/g` is modelled by `CommaBefore`, and
  `CommaBeforeIsMatch` proves that the two agree.
- `Amount`: `getAmountWei`. bignumber.js is modelled for its plain syntax
  `-?(\d+(\.\d*)?|\.\d+)(e[+-]?\d+)?` (letters in either case):
  - reading that syntax, with a round trip through a renderer;
  - `shiftedBy`, which throws on a shift beyond ±(2^53 − 1), so the `catch`
    returns "0";
  - `toFixed(0)`, which rounds with the library's default mode, ROUND_HALF_UP,
    so ties go away from zero;
  - printing the result, including "-0" for a negative amount that rounds to
    zero.

  The empty string left after stripping a commas-only amount is read as NaN,
  so the function prints "NaN". Other text the library does not read as a
  number (such as "abc", ".", "-" or "1.2.3") it also reads as NaN, and the
  function prints "NaN" for it too; the model does not follow that case (see
  "Left out").
- `Home`: the page logic. The router SDK, the wallet and React Query enter
  as parameters:
  - the asset table;
  - the accounts per chain;
  - a `fetch` function that stands for `skipClient.route`.

## Model

| member | source | states |
|---|---|---|
| `NumberFormat.RemoveCommas` | utils/number.ts:9-11 | the result holds no comma, is no longer than the input, and is the input itself when the input has no comma |
| `NumberFormat.RemoveCommasMultiset` | utils/number.ts:10 | the characters kept are exactly the non-comma characters of the input, with their counts |
| `NumberFormat.RemoveCommasConcat` | utils/number.ts:10 | removing commas works piecewise: each part of a concatenation keeps its characters in order and in place |
| `NumberFormat.RemoveCommasIdempotent` | utils/number.ts:10 | removing commas twice gives the same result as removing them once |
| `NumberFormat.CommaBeforeIsMatch` | utils/number.ts:5 | a comma is inserted before position k exactly when `\B` holds at k and `(\d{3})+(?!\d)` matches from k |
| `NumberFormat.FormatSplitsAtFirstDot` | utils/number.ts:3-7 | the result is the grouped text before the first `.`, followed by everything from that `.` on, unchanged |
| `NumberFormat.FormatWithCommasShape` | utils/number.ts:3-7 | only `parts[0]` is rewritten: the text from the first `.` on is kept verbatim, and the rewritten prefix contains no `.` and differs from the original prefix only in commas |
| `NumberFormat.GroupRemoveCommas` | utils/number.ts:5 | grouping only inserts commas: stripping commas after grouping gives the same result as stripping them before |
| `NumberFormat.GroupFromRemoveCommas` | utils/number.ts:5 | the same statement as `GroupRemoveCommas`, for the grouped text from any position onward |
| `NumberFormat.FormatRoundTrip` | utils/number.ts:3-11 | a comma-free string comes back unchanged after adding separators and then removing them |
| `NumberFormat.CommaPositionsInDigits` | utils/number.ts:5 | for an all-digit integer part of length n, a comma goes before position k exactly when 1 ≤ k ≤ n−1 and (n−k) mod 3 = 0 |
| `NumberFormat.GroupDigitsShape` | utils/number.ts:5 | a grouped run of digits has: a leading group of 1–3 digits, never preceded by a comma; then blocks of a comma plus exactly three digits; and the original digits once the commas are removed |
| `NumberFormat.FormatWithCommas` | utils/number.ts:3-7 | no contract of its own: `FormatSplitsAtFirstDot`, `FormatWithCommasShape` and `FormatRoundTrip` state what it computes |
| `Text.Split` | utils/number.ts:4 | `split` yields at least one piece, and the first piece is the text before the first separator |
| `Text.Join` | utils/number.ts:6 | joining a single piece gives that piece; `JoinSplit` states that joining undoes splitting |
| `Text.JoinSplit` | utils/number.ts:4-6 | joining the pieces of a `split` on the same separator gives back the original string |
| `Text.JoinReplacingFirst` | utils/number.ts:4-6 | replacing the first piece of a split and joining again rewrites only the text before the first separator |
| `Amount.AmountWei` | utils/number.ts:13-22 | an absent or empty amount gives "0"; any printed result is non-empty |
| `Amount.ShiftedText` | utils/number.ts:15-21 | any printed result of the `try` block and its `catch` is non-empty; `RejectedShiftGivesZero`, `CommasOnlyIsNaN`, `ExactShift` and `RoundedShift` state its cases |
| `Amount.ParseDecimal` | utils/number.ts:16 | a decimal read from the text is well formed (all-digit parts, at least one digit), and it is negative exactly when the text starts with `-`; `ParseRender` states that it reads every canonical spelling back |
| `Amount.Fixed` | utils/number.ts:17-18 | no contract of its own: `ExactShift`, `RoundedShift` and `NegativeMirrorsPositive` state what `shiftedBy` followed by `toFixed(0)` prints |
| `Amount.RoundHalfUp` | utils/number.ts:18 | no contract of its own: `RoundHalfUpNearest` states that it is the nearest integer, ties up |
| `Amount.DefaultShiftIsSix` | utils/number.ts:13 | omitting `decimals` gives the same result as a shift of six |
| `Amount.RejectedShiftGivesZero` | utils/number.ts:19-21 | a shift the library rejects (beyond ±(2^53 − 1)) makes the call return "0", whatever the amount |
| `Amount.CommasOnlyIsNaN` | utils/number.ts:16 | a non-empty amount made only of commas is read as the empty string and printed as "NaN" |
| `Amount.ExactShift` | utils/number.ts:16-18 | a non-negative decimal (commas allowed) with at most `decimals` fractional digits prints as a canonical integer numeral, without a point or comma, whose value times 10^(fraction digits) equals the digits' value times 10^decimals |
| `Amount.RoundedShift` | utils/number.ts:16-18 | with more fractional digits than `decimals`, the printed canonical numeral is the integer nearest to value × 10^decimals, and the larger one on a tie |
| `Amount.PlainShiftShown` | utils/number.ts:16-18 | a plain `whole[.fraction]` amount prints the value of its digits scaled by 10^(decimals − fraction digits) |
| `Amount.NegativeMirrorsPositive` | utils/number.ts:16-18 | a leading minus sign changes only the sign of the output: the magnitude is that of the unsigned amount, and the sign is printed unless the digits read are all zero |
| `Amount.GroupingDoesNotChangeAmount` | utils/number.ts:16 | a comma-free amount and its comma-grouped form give the same result |
| `Amount.ParseRender` | utils/number.ts:16 | reading the canonical spelling of any decimal gives that decimal back |
| `Amount.RoundHalfUpNearest` | utils/number.ts:18 | the rounding step gives the integer nearest to v / p, and the larger one on a tie |
| `Amount.ScaleNearest` | utils/number.ts:17-18 | shifting and rounding is exact multiplication by 10^k when no digit is cut off, and round-half-up otherwise |
| `Amount.ShowValue` | utils/number.ts:18 | printing the value of a canonical numeral gives back that numeral |
| `Amount.Show` | utils/number.ts:18 | an integer prints as a canonical numeral that denotes that integer |
| `Home.SourceAssetAsWritten` | pages/index.tsx:120-127 | the lookup as written throws exactly when the chain is selected and the asset table is loaded, but the table has no entry for the chain |
| `Home.SourceAssetThrowsForUnlistedChain` | pages/index.tsx:123 | a concrete input: selected chain "osmosis-1" with a loaded, empty asset table; the code as written throws there, and the corrected lookup yields no asset |
| `Home.SourceAsset` | pages/index.tsx:120-127 | a found asset belongs to the selected chain's list and has the selected denom |
| `Home.SourceAssetIsFirstMatch` | pages/index.tsx:123-125 | the corrected lookup finds an asset exactly when the chain's list holds one with the selected denom, and then it is the first such asset |
| `Home.SourceAssetAgrees` | pages/index.tsx:120-127 | wherever the lookup as written does not throw, it gives the same result as the corrected one |
| `Home.AmountIn` | pages/index.tsx:130 | the amount is shifted by the source asset's decimals when they are known, and by six places otherwise |
| `Home.RouteQuery` | pages/index.tsx:136-152 | a request is built exactly when both chain IDs and both denoms are non-empty; it carries those four values and the amount, with the three permissive flags set |
| `Home.QueryEnabled` | pages/index.tsx:154 | no contract of its own: `AmountNeverBlocksQuery`, `EmptyAmountEnablesQuery` and `RouteData` state its effect |
| `Home.AmountNeverBlocksQuery` | pages/index.tsx:154 | the computed amount is never empty, so the query is enabled exactly when both selections exist |
| `Home.EmptyAmountEnablesQuery` | pages/index.tsx:130-154 | with nothing typed the amount is "0", and the two selections alone enable the query |
| `Home.RouteData` | pages/index.tsx:133-155 | the route held is what the router returned for the built request exactly when the query is enabled and its guard passes; otherwise no route is held |
| `Home.ExecuteDisabled` | pages/index.tsx:448-455 | no contract of its own: `ExecuteEnabledMeansComplete`, `ExecuteEnabledMeansQueried` and `ExecuteBindsLastHop` state its meaning |
| `Home.ExecuteEnabledMeansComplete` | pages/index.tsx:448-455 | the button is enabled exactly when there is a route, there is a recipient, and the route query's guard passes |
| `Home.ExecuteEnabledMeansQueried` | pages/index.tsx:448-455 | with the route the page holds, an enabled button means the query ran and the router answered the request built from the form |
| `Home.BindHop` | pages/index.tsx:165-174 | one iteration adds at most its own chain and leaves every other entry as it was |
| `Home.Fold` | pages/index.tsx:164-175 | after the first n hops, every key is one of those n chain IDs |
| `Home.UserAddresses` | pages/index.tsx:162-177 | without a route the map is empty; otherwise every key is one of the route's chain IDs |
| `Home.FoldBeforeLast` | pages/index.tsx:172-174 | before the last hop, the map binds exactly the chains already met that have a wallet account, each to that account |
| `Home.UserAddressesResolved` | pages/index.tsx:162-177 | the fold agrees, chain by chain, with `Resolved`, an independent description of the address each chain gets |
| `Home.EarlyHopUsesAccount` | pages/index.tsx:172-174 | a hop before the last whose chain has a non-empty account address is bound to that address |
| `Home.LastHopWithoutRecipient` | pages/index.tsx:165-170 | on the last hop without a recipient, nothing is added and the last chain's account is not consulted |
| `Home.LastHopRecipient` | pages/index.tsx:166-167 | on the last hop with a recipient and no account address, the chain is bound to the recipient |
| `Home.LastHopAccountWins` | pages/index.tsx:166-174 | on the last hop with both a recipient and an account address, the account address wins |
| `Home.RecipientOnlyOnLastHop` | pages/index.tsx:164-175 | every entry is the chain's own account address, except that the last chain may instead hold the recipient |
| `Home.ExecuteBindsLastHop` | pages/index.tsx:448-455 | when the button is enabled and the route has hops, the last chain has an entry in the address map |

## Left out

- Rendering (the JSX and the Chakra UI components), the header and footer, and the app providers. These are presentation and framework wiring.
- React Query and React hooks. `useMemo`, `useQuery` and `useMutation` become plain functions of their inputs.
- Home.RouteData: React Query's cache and its keeping of earlier data are not modelled. The route is what the query returns for the current inputs.
- The router SDK's calls (chains, assets, route, executeRoute, transactionStatus). Their results are parameters, and the route request is a parameter of `fetch`.
- The wallet and Keplr integration, including the global `window.keplr` options. Accounts enter as a parameter.
- The RPC proxy `pages/api/rpc.ts`. It is a pass-through `fetch` with no logic.
- The sorting of chains and assets with `localeCompare`. Its order depends on the locale.
- Looking up a chain ID such as `"constructor"`, which would find a property inherited by every JavaScript object. The maps are plain maps.
- `number` arguments to the comma utilities, and their `toString`. Only string arguments are modelled.
- Amount.AmountWei: amounts outside the plain syntax are `BeyondModel`, not a value. That covers whitespace, a `+` sign, the `0x`/`0b`/`0o` prefixes and the words `Infinity` and `NaN`, which bignumber.js reads through other paths. It also covers malformed text such as "abc", ".", "-" or "1.2.3", which bignumber.js reads as NaN, so the function prints "NaN". Values past the library's exponent limits are `BeyondModel` too.
- Amount.ShiftedText: the same `BeyondModel` cases as `AmountWei`.
- Amount.ExactShift: requires digit counts plus the shift to stay below 10^9. The library's own limit on exponents is of that size, but this bound is not tight.
- Amount.RoundedShift: the same bound as `ExactShift`.
- Amount.PlainShiftShown: the same bound as `ExactShift`.
- Home.AmountNeverBlocksQuery: requires the amount to be one the model prints, so it says nothing about `BeyondModel` amounts such as " 5" (which the library reads as 5) or "abc" (printed "NaN"), though the function gives a non-empty string for those too. The page's amount field is an `<input type="number">` (pages/index.tsx:309-312), whose value is either "" or a number in the plain syntax, so the excluded amounts do not reach the function from the page.
- Home.AmountIn: a non-integer `decimals` from the asset list is taken as an integer. `shiftedBy` rejects non-integers, which is a case the model does not follow.
- The code has none of the following rules, and the model adds none of them:
  - a malformed amount does not yield "0", because bignumber.js reads it as NaN without throwing;
  - a negative amount does not yield "0"; it is shifted like any other;
  - intermediate hops are not re-encoded to bech32;
  - there is no "recipient wins on the last hop" rule.


## Findings

| source | as written | input that shows it | evidently intended | confidence | as-written member | corrected member |
|---|---|---|---|---|---|---|
| pages/index.tsx:123 | `assets?.[source?.chainID].find(...)` guards the asset table, not its entry for the selected chain, so `find` is called on `undefined` | a selected chain ID (say "osmosis-1") with the asset table loaded but without that chain: a `TypeError` is thrown while the page renders | `assets?.[source?.chainID]?.find(...)`, as the asset menu does at pages/index.tsx:291: no asset is selected | not executed | `Home.SourceAssetAsWritten`, `Home.SourceAssetThrowsForUnlistedChain` | `Home.SourceAsset`, `Home.SourceAssetIsFirstMatch` |
