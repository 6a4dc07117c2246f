/** The logic of the example page (`pages/index.tsx`) that does not depend on
    rendering: which asset the user is sending, the route request built from
    the form, whether the route query runs, whether "Execute Route" is
    enabled, and the chain-to-address map handed to the router when the
    route is executed. The router SDK and the wallet are outside the model:
    what they return enters as parameters. */
module Home {
  import opened Wrappers
  import Amount

  // ---------------------------------------------------------------------
  // Form state
  // ---------------------------------------------------------------------

  /** A JavaScript string in a condition: `undefined` and `""` are falsy. */
  predicate Truthy(o: Option<string>) {
    o.Some? && o.value != []
  }

  /** The "From" selection; either field may still be unset. */
  datatype Source = Source(chainID: Option<string>, assetDenom: Option<string>)

  /** The "To" selection and the recipient typed by the user. */
  datatype Destination = Destination(
    chainID: Option<string>,
    assetDenom: Option<string>,
    destinationAddress: Option<string>)

  /** An entry of the router's asset list. */
  datatype Asset = Asset(denom: string, decimals: Option<int>)

  /** The wallet's account on one chain. */
  datatype Account = Account(bech32Address: Option<string>)

  /** A route as returned by the router: the chains it passes through, in order. */
  datatype Route = Route(chainIDs: seq<string>)

  /** The arguments of `skipClient.route(...)`. */
  datatype RouteRequest = RouteRequest(
    destAssetChainID: string,
    destAssetDenom: string,
    amountIn: string,
    sourceAssetChainID: string,
    sourceAssetDenom: string,
    smartRelay: bool,
    allowMultiTx: bool,
    allowUnsafe: bool)

  // Optional chaining on the form state: `source?.chainID` and the like.

  function SourceChain(source: Option<Source>): Option<string> {
    if source.Some? then source.value.chainID else None
  }

  function SourceDenom(source: Option<Source>): Option<string> {
    if source.Some? then source.value.assetDenom else None
  }

  function DestChain(dest: Option<Destination>): Option<string> {
    if dest.Some? then dest.value.chainID else None
  }

  function DestDenom(dest: Option<Destination>): Option<string> {
    if dest.Some? then dest.value.assetDenom else None
  }

  function DestAddress(dest: Option<Destination>): Option<string> {
    if dest.Some? then dest.value.destinationAddress else None
  }

  // ---------------------------------------------------------------------
  // The source asset
  // ---------------------------------------------------------------------

  /** Whether an asset is the one selected: `asset.denom === assetDenom`,
      which never holds while the selection is unset. */
  predicate Selects(asset: Asset, denom: Option<string>) {
    denom == Some(asset.denom)
  }

  /** Index of the first asset with the selected denom (`Array.prototype.find`),
      or `|assets|` when there is none. */
  function FindIndex(assets: seq<Asset>, denom: Option<string>): (i: nat)
    ensures i <= |assets|
    ensures i < |assets| ==> Selects(assets[i], denom)
    ensures forall j :: 0 <= j < i ==> !Selects(assets[j], denom)
  {
    if assets == [] then 0
    else if Selects(assets[0], denom) then 0
    else 1 + FindIndex(assets[1..], denom)
  }

  function Find(assets: seq<Asset>, denom: Option<string>): (r: Option<Asset>)
    ensures r.Some? <==> exists i :: 0 <= i < |assets| && Selects(assets[i], denom)
    ensures r.Some? ==> r.value in assets && Selects(r.value, denom)
  {
    var i := FindIndex(assets, denom);
    if i < |assets| then Some(assets[i]) else None
  }

  /** What evaluating the `sourceAsset` memo yields: a value, or the
      `TypeError` of calling `find` on `undefined`. */
  datatype Lookup = Yields(asset: Option<Asset>) | ThrowsTypeError

  /** `sourceAsset` as written: `assets?.[chainID].find(...)` guards only the
      asset table, not the entry for the selected chain. */
  function SourceAssetAsWritten(source: Option<Source>, assets: Option<map<string, seq<Asset>>>): (r: Lookup)
    ensures r.ThrowsTypeError? <==>
              Truthy(SourceChain(source)) && assets.Some? && SourceChain(source).value !in assets.value
  {
    var chainID := SourceChain(source);
    if !Truthy(chainID) then Yields(None)
    else if assets.None? then Yields(None)
    else if chainID.value !in assets.value then ThrowsTypeError
    else Yields(Find(assets.value[chainID.value], SourceDenom(source)))
  }

  /** `sourceAsset` with the entry guarded as well (`assets?.[chainID]?.find`),
      as the asset menu of the same page does: the first asset of the
      selected chain with the selected denom, if any. */
  function SourceAsset(source: Option<Source>, assets: Option<map<string, seq<Asset>>>): (r: Option<Asset>)
    ensures r.Some? ==> Truthy(SourceChain(source)) && assets.Some?
                        && SourceChain(source).value in assets.value
                        && r.value in assets.value[SourceChain(source).value]
                        && SourceDenom(source) == Some(r.value.denom)
  {
    var chainID := SourceChain(source);
    if !Truthy(chainID) || assets.None? || chainID.value !in assets.value then None
    else Find(assets.value[chainID.value], SourceDenom(source))
  }

  /** The corrected lookup finds an asset exactly when the selected chain's
      list holds one with the selected denom, and then it is the first one. */
  lemma SourceAssetIsFirstMatch(source: Option<Source>, assets: Option<map<string, seq<Asset>>>)
    requires Truthy(SourceChain(source)) && assets.Some? && SourceChain(source).value in assets.value
    ensures var list := assets.value[SourceChain(source).value];
            var r := SourceAsset(source, assets);
            && (r.Some? <==> exists i :: 0 <= i < |list| && Selects(list[i], SourceDenom(source)))
            && (r.Some? ==> exists i :: 0 <= i < |list| && list[i] == r.value
                              && forall j :: 0 <= j < i ==> !Selects(list[j], SourceDenom(source)))
  {
    var list := assets.value[SourceChain(source).value];
    var i := FindIndex(list, SourceDenom(source));
    if i < |list| {
      assert list[i] == SourceAsset(source, assets).value;
    }
  }

  /** Where the written lookup does not throw, it agrees with the corrected one. */
  lemma SourceAssetAgrees(source: Option<Source>, assets: Option<map<string, seq<Asset>>>)
    ensures SourceAssetAsWritten(source, assets).Yields? ==>
              SourceAssetAsWritten(source, assets).asset == SourceAsset(source, assets)
  {
  }

  /** The page crashes once the asset list has loaded if the selected chain
      has no entry in it. */
  lemma SourceAssetThrowsForUnlistedChain()
    ensures SourceAssetAsWritten(Some(Source(Some("osmosis-1"), Some("uosmo"))), Some(map[]))
            == ThrowsTypeError
    ensures SourceAsset(Some(Source(Some("osmosis-1"), Some("uosmo"))), Some(map[])) == None
  {
  }

  /** `amountIn`: the amount in base units, shifted by the source asset's
      decimals when the asset is known, by six places otherwise. */
  function AmountIn(amount: Option<string>, sourceAsset: Option<Asset>): (r: Amount.Outcome)
    ensures sourceAsset.None? || sourceAsset.value.decimals.None? ==>
              r == Amount.AmountWei(amount, Some(Amount.DefaultDecimals))
    ensures sourceAsset.Some? && sourceAsset.value.decimals.Some? ==>
              r == Amount.AmountWei(amount, sourceAsset.value.decimals)
    ensures r.Printed? ==> r.text != []
  {
    Amount.DefaultShiftIsSix(amount);
    Amount.AmountWei(amount, if sourceAsset.Some? then sourceAsset.value.decimals else None)
  }

  // ---------------------------------------------------------------------
  // The route query
  // ---------------------------------------------------------------------

  /** What the query function does before calling the router: no request
      unless both chains and both denoms are chosen, otherwise a request for
      them with the three permissive flags set. */
  function RouteQuery(source: Option<Source>, dest: Option<Destination>, amountIn: string): (r: Option<RouteRequest>)
    ensures r.Some? <==> Truthy(DestChain(dest)) && Truthy(DestDenom(dest))
                         && Truthy(SourceChain(source)) && Truthy(SourceDenom(source))
    ensures r.Some? ==> && Some(r.value.destAssetChainID) == DestChain(dest)
                        && Some(r.value.destAssetDenom) == DestDenom(dest)
                        && Some(r.value.sourceAssetChainID) == SourceChain(source)
                        && Some(r.value.sourceAssetDenom) == SourceDenom(source)
                        && r.value.amountIn == amountIn
                        && r.value.smartRelay && r.value.allowMultiTx && r.value.allowUnsafe
  {
    if !Truthy(DestChain(dest)) || !Truthy(DestDenom(dest))
       || !Truthy(SourceChain(source)) || !Truthy(SourceDenom(source))
    then None
    else Some(RouteRequest(
      DestChain(dest).value, DestDenom(dest).value, amountIn,
      SourceChain(source).value, SourceDenom(source).value,
      true, true, true))
  }

  /** The query's `enabled` flag: both selections exist and the amount
      string is not empty. */
  predicate QueryEnabled(source: Option<Source>, dest: Option<Destination>, amountIn: string) {
    source.Some? && dest.Some? && amountIn != []
  }

  /** The amount never holds the query back: whatever amount string the page
      computes, the query runs as soon as both selections exist. */
  lemma AmountNeverBlocksQuery(source: Option<Source>, dest: Option<Destination>,
                               amount: Option<string>, sourceAsset: Option<Asset>)
    requires AmountIn(amount, sourceAsset).Printed?
    ensures QueryEnabled(source, dest, AmountIn(amount, sourceAsset).text)
            <==> source.Some? && dest.Some?
  {
  }

  /** Before anything is typed the amount is "0", so the query is enabled
      by the two selections alone. */
  lemma EmptyAmountEnablesQuery(source: Option<Source>, dest: Option<Destination>,
                                amount: Option<string>, sourceAsset: Option<Asset>)
    requires amount == None || amount == Some("")
    ensures AmountIn(amount, sourceAsset) == Amount.Printed("0")
    ensures QueryEnabled(source, dest, AmountIn(amount, sourceAsset).text)
            <==> source.Some? && dest.Some?
  {
  }

  /** The route the page holds: only an enabled query whose guard passed
      asks the router (`fetch`), and then the page holds what it returned. */
  function RouteData(source: Option<Source>, dest: Option<Destination>, amountIn: string,
                     fetch: RouteRequest -> Option<Route>): (r: Option<Route>)
    ensures r.Some? ==> QueryEnabled(source, dest, amountIn)
                        && RouteQuery(source, dest, amountIn).Some?
                        && r == fetch(RouteQuery(source, dest, amountIn).value)
    ensures QueryEnabled(source, dest, amountIn) && RouteQuery(source, dest, amountIn).Some? ==>
              r == fetch(RouteQuery(source, dest, amountIn).value)
    ensures !QueryEnabled(source, dest, amountIn) || RouteQuery(source, dest, amountIn).None? ==>
              r == None
  {
    if !QueryEnabled(source, dest, amountIn) then None
    else
      var request := RouteQuery(source, dest, amountIn);
      if request.None? then None else fetch(request.value)
  }

  // ---------------------------------------------------------------------
  // The execute button
  // ---------------------------------------------------------------------

  /** `isDisabled` of "Execute Route". */
  predicate ExecuteDisabled(source: Option<Source>, dest: Option<Destination>, route: Option<Route>) {
    || !Truthy(DestChain(dest))
    || !Truthy(DestDenom(dest))
    || !Truthy(DestAddress(dest))
    || !Truthy(SourceChain(source))
    || !Truthy(SourceDenom(source))
    || route.None?
  }

  /** The button is enabled exactly when there is a route, a recipient, and
      a form complete enough for the route query to build a request. */
  lemma ExecuteEnabledMeansComplete(source: Option<Source>, dest: Option<Destination>,
                                    route: Option<Route>, amountIn: string)
    ensures !ExecuteDisabled(source, dest, route)
            <==> route.Some? && Truthy(DestAddress(dest)) && RouteQuery(source, dest, amountIn).Some?
  {
  }

  /** With the route the page actually holds, an enabled button means the
      query ran and the router answered the request built from the form. */
  lemma ExecuteEnabledMeansQueried(source: Option<Source>, dest: Option<Destination>, amountIn: string,
                                   fetch: RouteRequest -> Option<Route>)
    requires !ExecuteDisabled(source, dest, RouteData(source, dest, amountIn, fetch))
    ensures QueryEnabled(source, dest, amountIn)
    ensures RouteQuery(source, dest, amountIn).Some?
    ensures RouteData(source, dest, amountIn, fetch) == fetch(RouteQuery(source, dest, amountIn).value)
  {
  }

  // ---------------------------------------------------------------------
  // The address map
  // ---------------------------------------------------------------------

  /** `account?.[chainID]?.bech32Address`. */
  function AccountAddress(accounts: Option<map<string, Account>>, chainID: string): Option<string> {
    if accounts.Some? && chainID in accounts.value then accounts.value[chainID].bech32Address else None
  }

  /** One call of the `forEach` callback: on the last hop, nothing at all
      without a recipient, the recipient otherwise; then, on every hop that
      gets this far, the wallet's account if it has one, written last. */
  function BindHop(addresses: map<string, string>, chainID: string, isLast: bool,
                   destAddress: Option<string>, accounts: Option<map<string, Account>>): (r: map<string, string>)
    ensures r.Keys <= addresses.Keys + {chainID}
    ensures forall c :: c in addresses && c != chainID ==> c in r && r[c] == addresses[c]
  {
    if isLast && !Truthy(destAddress) then addresses
    else
      var withRecipient := if isLast then addresses[chainID := destAddress.value] else addresses;
      var account := AccountAddress(accounts, chainID);
      if Truthy(account) then withRecipient[chainID := account.value] else withRecipient
  }

  /** The map after the first `n` hops of `chainIDs`. */
  function Fold(chainIDs: seq<string>, n: nat, destAddress: Option<string>,
                accounts: Option<map<string, Account>>): (r: map<string, string>)
    requires n <= |chainIDs|
    ensures forall c :: c in r ==> c in chainIDs[..n]
  {
    if n == 0 then map[]
    else
      var before := Fold(chainIDs, n - 1, destAddress, accounts);
      assert chainIDs[..n] == chainIDs[..n - 1] + [chainIDs[n - 1]];
      BindHop(before, chainIDs[n - 1], n - 1 == |chainIDs| - 1, destAddress, accounts)
  }

  /** `userAddresses`: empty without a route, otherwise the fold over all of
      its hops; every key is a chain of the route. */
  function UserAddresses(route: Option<Route>, dest: Option<Destination>,
                         accounts: Option<map<string, Account>>): (r: map<string, string>)
    ensures route.None? ==> r == map[]
    ensures route.Some? ==> forall c :: c in r ==> c in route.value.chainIDs
  {
    if route.None? then map[]
    else
      var ids := route.value.chainIDs;
      assert ids[..|ids|] == ids;
      Fold(ids, |ids|, DestAddress(dest), accounts)
  }

  /** Independent description of the address bound to chain `c`: the
      wallet's account wherever the chain is reached with one (a hop before
      the last, or the last hop when there is a recipient), otherwise the
      recipient on the last hop when there is one, otherwise nothing. */
  function Resolved(chainIDs: seq<string>, destAddress: Option<string>,
                    accounts: Option<map<string, Account>>, c: string): Option<string>
  {
    var account := AccountAddress(accounts, c);
    var lastWithRecipient := |chainIDs| > 0 && chainIDs[|chainIDs| - 1] == c && Truthy(destAddress);
    var early := |chainIDs| > 0 && c in chainIDs[..|chainIDs| - 1];
    if Truthy(account) && (early || lastWithRecipient) then account
    else if lastWithRecipient then destAddress
    else None
  }

  /** Before the last hop, the map binds exactly the chains met so far that
      have a wallet account, each to that account. */
  lemma {:induction false} FoldBeforeLast(chainIDs: seq<string>, n: nat, destAddress: Option<string>,
                                          accounts: Option<map<string, Account>>, c: string)
    requires n < |chainIDs|
    ensures var r := Fold(chainIDs, n, destAddress, accounts);
            var account := AccountAddress(accounts, c);
            && (c in r <==> Truthy(account) && c in chainIDs[..n])
            && (c in r ==> r[c] == account.value)
  {
    if n > 0 {
      FoldBeforeLast(chainIDs, n - 1, destAddress, accounts, c);
      assert chainIDs[..n] == chainIDs[..n - 1] + [chainIDs[n - 1]];
    }
  }

  /** The fold computes `Resolved` for every chain. */
  lemma UserAddressesResolved(route: Route, dest: Option<Destination>,
                              accounts: Option<map<string, Account>>, c: string)
    ensures var r := UserAddresses(Some(route), dest, accounts);
            var e := Resolved(route.chainIDs, DestAddress(dest), accounts, c);
            && (c in r <==> e.Some?)
            && (c in r ==> r[c] == e.value)
  {
    var ids := route.chainIDs;
    var d := DestAddress(dest);
    if |ids| > 0 {
      var before := Fold(ids, |ids| - 1, d, accounts);
      assert UserAddresses(Some(route), dest, accounts) == BindHop(before, ids[|ids| - 1], true, d, accounts) by {
        assert ids[..|ids|] == ids;
      }
      FoldBeforeLast(ids, |ids| - 1, d, accounts, c);
      LastHopAt(before, ids[|ids| - 1], d, accounts, c, c in ids[..|ids| - 1]);
    } else {
      assert UserAddresses(Some(route), dest, accounts) == map[];
    }
  }

  /** The last hop, seen from one chain `c` that was bound before it exactly
      when it has an account and was met (`early`). */
  lemma LastHopAt(before: map<string, string>, last: string, destAddress: Option<string>,
                  accounts: Option<map<string, Account>>, c: string, early: bool)
    requires c in before <==> Truthy(AccountAddress(accounts, c)) && early
    requires c in before ==> before[c] == AccountAddress(accounts, c).value
    ensures var after := BindHop(before, last, true, destAddress, accounts);
            var account := AccountAddress(accounts, c);
            var lastWithRecipient := last == c && Truthy(destAddress);
            var e := if Truthy(account) && (early || lastWithRecipient) then account
                     else if lastWithRecipient then destAddress
                     else None;
            && (c in after <==> e.Some?)
            && (c in after ==> after[c] == e.value)
  {
    var after := BindHop(before, last, true, destAddress, accounts);
    var account := AccountAddress(accounts, c);
    if c == last && Truthy(destAddress) {
      assert c in after && after[c] == (if Truthy(account) then account.value else destAddress.value);
    } else if Truthy(destAddress) {
      assert c in after <==> c in before;
      assert c in after ==> after[c] == before[c];
    } else {
      assert after == before;
    }
  }

  /** A hop before the last whose chain has a wallet account is bound to it. */
  lemma EarlyHopUsesAccount(route: Route, dest: Option<Destination>,
                            accounts: Option<map<string, Account>>, i: nat)
    requires i + 1 < |route.chainIDs|
    requires Truthy(AccountAddress(accounts, route.chainIDs[i]))
    ensures var r := UserAddresses(Some(route), dest, accounts);
            route.chainIDs[i] in r && r[route.chainIDs[i]] == AccountAddress(accounts, route.chainIDs[i]).value
  {
    var ids := route.chainIDs;
    assert ids[..|ids| - 1][i] == ids[i];
    UserAddressesResolved(route, dest, accounts, ids[i]);
  }

  /** Without a recipient the last hop adds nothing: the map is the one
      after the hops before it, and the last chain's account is not read. */
  lemma LastHopWithoutRecipient(route: Route, dest: Option<Destination>,
                                accounts: Option<map<string, Account>>)
    requires route.chainIDs != [] && !Truthy(DestAddress(dest))
    ensures var ids := route.chainIDs;
            UserAddresses(Some(route), dest, accounts)
              == Fold(ids, |ids| - 1, DestAddress(dest), accounts)
  {
    var ids := route.chainIDs;
    assert ids[..|ids|] == ids;
  }

  /** A recipient and no wallet account: the last chain is bound to the
      recipient. */
  lemma LastHopRecipient(route: Route, dest: Option<Destination>,
                         accounts: Option<map<string, Account>>)
    requires route.chainIDs != [] && Truthy(DestAddress(dest))
    requires !Truthy(AccountAddress(accounts, route.chainIDs[|route.chainIDs| - 1]))
    ensures var last := route.chainIDs[|route.chainIDs| - 1];
            var r := UserAddresses(Some(route), dest, accounts);
            last in r && r[last] == DestAddress(dest).value
  {
    UserAddressesResolved(route, dest, accounts, route.chainIDs[|route.chainIDs| - 1]);
  }

  /** A recipient and a wallet account: the account, written second, wins. */
  lemma LastHopAccountWins(route: Route, dest: Option<Destination>,
                           accounts: Option<map<string, Account>>)
    requires route.chainIDs != [] && Truthy(DestAddress(dest))
    requires Truthy(AccountAddress(accounts, route.chainIDs[|route.chainIDs| - 1]))
    ensures var last := route.chainIDs[|route.chainIDs| - 1];
            var r := UserAddresses(Some(route), dest, accounts);
            last in r && r[last] == AccountAddress(accounts, last).value
  {
    UserAddressesResolved(route, dest, accounts, route.chainIDs[|route.chainIDs| - 1]);
  }

  /** The recipient is used for the last chain only; every other entry is
      the wallet's account for its chain. */
  lemma RecipientOnlyOnLastHop(route: Route, dest: Option<Destination>,
                               accounts: Option<map<string, Account>>, c: string)
    requires c in UserAddresses(Some(route), dest, accounts)
    ensures var r := UserAddresses(Some(route), dest, accounts);
            || (Truthy(AccountAddress(accounts, c)) && r[c] == AccountAddress(accounts, c).value)
            || (c == route.chainIDs[|route.chainIDs| - 1] && Truthy(DestAddress(dest))
                && r[c] == DestAddress(dest).value)
  {
    UserAddressesResolved(route, dest, accounts, c);
  }

  /** When "Execute Route" is enabled and the route has hops, the last chain
      has an address in the map handed to the router. */
  lemma ExecuteBindsLastHop(source: Option<Source>, dest: Option<Destination>,
                            route: Option<Route>, accounts: Option<map<string, Account>>)
    requires !ExecuteDisabled(source, dest, route) && route.Some? && route.value.chainIDs != []
    ensures route.value.chainIDs[|route.value.chainIDs| - 1] in UserAddresses(route, dest, accounts)
  {
    UserAddressesResolved(route.value, dest, accounts, route.value.chainIDs[|route.value.chainIDs| - 1]);
  }
}
