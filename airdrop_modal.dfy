/**
 * The airdrop modal without its rendering: the set of selected Farcaster ids
 * and the total amount (the component's two pieces of state), the handlers
 * that change them, and what a click on Deploy hands to `onDeploy`.
 */
module AirdropModal {
  import opened Wrappers
  import opened JsNumbers

  /** The smallest total an airdrop may deploy; also the amount the modal starts with. */
  const MinTotal: int := 260000000

  /** A profile as the modal uses it: its Farcaster id and its verified ETH addresses. */
  datatype Profile = Profile(farcasterId: string, ethAddresses: seq<string>)

  /**
   * One `{ address, amount }` entry handed to `onDeploy`. The address is
   * `None` for a profile without ETH addresses, where the component reads
   * `undefined` out of an empty array.
   */
  datatype Entry = Entry(address: Option<string>, amount: real)

  /** A click on Deploy either stops at the alert or calls `onDeploy` with the entries. */
  datatype DeployOutcome = Rejected | Deployed(entries: seq<Entry>)

  // ---------------------------------------------------------------------
  // Selection

  /** The ids of all profiles: the set built from `profiles.map(p => p.farcasterId)`. */
  function AllIds(ps: seq<Profile>): (ids: set<string>)
    ensures forall i :: 0 <= i < |ps| ==> ps[i].farcasterId in ids
    ensures forall id :: id in ids ==> exists i :: 0 <= i < |ps| && ps[i].farcasterId == id
  {
    if ps == [] then {} else AllIds(ps[..|ps| - 1]) + {ps[|ps| - 1].farcasterId}
  }

  /** No two profiles share a Farcaster id. */
  predicate DistinctIds(ps: seq<Profile>)
  {
    forall i, j :: 0 <= i < j < |ps| ==> ps[i].farcasterId != ps[j].farcasterId
  }

  /** There are as many distinct ids as profiles exactly when no id repeats. */
  lemma {:induction false} AllIdsCount(ps: seq<Profile>)
    ensures |AllIds(ps)| <= |ps|
    ensures |AllIds(ps)| == |ps| <==> DistinctIds(ps)
  {
    if ps != [] {
      var init, last := ps[..|ps| - 1], ps[|ps| - 1];
      AllIdsCount(init);
      if last.farcasterId in AllIds(init) {
        assert AllIds(ps) == AllIds(init);
        RepeatedLastId(ps);
      } else {
        assert |AllIds(ps)| == |AllIds(init)| + 1;
        DistinctIdsExtend(ps);
      }
    }
  }

  /** A last id that an earlier profile already has makes the ids not distinct. */
  lemma RepeatedLastId(ps: seq<Profile>)
    requires ps != [] && ps[|ps| - 1].farcasterId in AllIds(ps[..|ps| - 1])
    ensures !DistinctIds(ps)
  {
    var init := ps[..|ps| - 1];
    var i :| 0 <= i < |init| && init[i].farcasterId == ps[|ps| - 1].farcasterId;
    assert ps[i] == init[i];
  }

  /** With a new last id, the ids are distinct exactly when the earlier ones are. */
  lemma DistinctIdsExtend(ps: seq<Profile>)
    requires ps != [] && ps[|ps| - 1].farcasterId !in AllIds(ps[..|ps| - 1])
    ensures DistinctIds(ps) <==> DistinctIds(ps[..|ps| - 1])
  {
    var init := ps[..|ps| - 1];
    if DistinctIds(init) {
      forall i, j | 0 <= i < j < |ps| ensures ps[i].farcasterId != ps[j].farcasterId {
        if j == |ps| - 1 {
          assert init[i].farcasterId in AllIds(init);
        } else {
          assert init[i] == ps[i] && init[j] == ps[j];
        }
      }
    } else {
      var i, j :| 0 <= i < j < |init| && init[i].farcasterId == init[j].farcasterId;
      assert ps[i] == init[i] && ps[j] == init[j];
    }
  }

  /** The selection after clicking one profile row (`toggleProfileSelection`). */
  function Toggled(sel: set<string>, id: string): (r: set<string>)
    ensures id in r <==> id !in sel
    ensures forall x :: x != id ==> (x in r <==> x in sel)
  {
    if id in sel then sel - {id} else sel + {id}
  }

  /** Clicking the same row twice restores the selection. */
  lemma ToggleTwice(sel: set<string>, id: string)
    ensures Toggled(Toggled(sel, id), id) == sel
  {
  }

  /**
   * The selection after clicking the select-all checkbox (`toggleSelectAll`):
   * cleared when it has as many ids as there are profiles, otherwise every
   * profile's id. The test compares sizes, not sets.
   */
  function SelectAllToggled(sel: set<string>, ps: seq<Profile>): (r: set<string>)
    ensures |sel| == |ps| ==> r == {}
    ensures |sel| != |ps| ==> forall i :: 0 <= i < |ps| ==> ps[i].farcasterId in r
    ensures forall id :: id in r ==> exists i :: 0 <= i < |ps| && ps[i].farcasterId == id
  {
    if |sel| == |ps| then {} else AllIds(ps)
  }

  /**
   * Select-all clears a selection of every profile exactly when the profiles'
   * ids are distinct; with a repeated id it selects the same set again.
   */
  lemma SelectAllClearsFullSelection(ps: seq<Profile>)
    ensures SelectAllToggled(AllIds(ps), ps) == {} <==> DistinctIds(ps)
    ensures !DistinctIds(ps) ==> SelectAllToggled(AllIds(ps), ps) == AllIds(ps)
  {
    AllIdsCount(ps);
    if !DistinctIds(ps) {
      var i, j :| 0 <= i < j < |ps| && ps[i].farcasterId == ps[j].farcasterId;
      assert ps[i].farcasterId in AllIds(ps);
    }
  }

  /**
   * With distinct ids, two clicks on select-all go through "all" and "none":
   * a selection of the profile count ends up as every id, any other ends up
   * empty.
   */
  lemma SelectAllTwice(sel: set<string>, ps: seq<Profile>)
    requires DistinctIds(ps)
    ensures SelectAllToggled(SelectAllToggled(sel, ps), ps)
            == if |sel| == |ps| then AllIds(ps) else {}
  {
    AllIdsCount(ps);
    if |sel| == |ps| && ps != [] {
      assert ps[0].farcasterId in AllIds(ps);
    }
  }

  /**
   * The selection after the effect that runs when the modal opens or the
   * profiles change: every profile's id when the modal is open and there is
   * at least one profile, otherwise the selection as it was.
   */
  function OpenedSelection(isOpen: bool, ps: seq<Profile>, sel: set<string>): (r: set<string>)
    ensures isOpen && |ps| > 0 ==>
              (forall i :: 0 <= i < |ps| ==> ps[i].farcasterId in r)
              && (forall id :: id in r ==> exists i :: 0 <= i < |ps| && ps[i].farcasterId == id)
    ensures !isOpen || |ps| == 0 ==> r == sel
  {
    if isOpen && |ps| > 0 then AllIds(ps) else sel
  }

  // ---------------------------------------------------------------------
  // Amount

  /** `s.replace(/,/g, '')`: the text without its commas. */
  function StripCommas(s: string): (r: string)
    ensures |r| <= |s|
    ensures forall c :: c in r <==> c in s && c != ','
  {
    if s == [] then [] else (if s[0] == ',' then [] else [s[0]]) + StripCommas(s[1..])
  }

  lemma {:induction false} StripCommasAppend(a: string, b: string)
    ensures StripCommas(a + b) == StripCommas(a) + StripCommas(b)
  {
    if a != [] {
      var head: string := if a[0] == ',' then [] else [a[0]];
      assert (a + b)[0] == a[0] && (a + b)[1..] == a[1..] + b;
      assert StripCommas(a + b) == head + StripCommas(a[1..] + b);
      StripCommasAppend(a[1..], b);
      assert StripCommas(a) == head + StripCommas(a[1..]);
    } else {
      assert a + b == b;
    }
  }

  lemma {:induction false} StripCommasOfDigits(s: string)
    requires AllDigits(s)
    ensures StripCommas(s) == s
  {
    if s != [] {
      StripCommasOfDigits(s[1..]);
    }
  }

  /**
   * The total amount after the text field changes (`handleAmountChange`):
   * the integer `parseInt` reads once commas are removed; failing that, 0
   * for an empty field; failing that, the amount as it was.
   */
  function AmountAfterInput(prev: int, text: string): (amount: int)
    ensures text == "" ==> amount == 0
    ensures text != "" ==> amount == prev || ParseInt(StripCommas(text)) == Some(amount)
    ensures ParseInt(StripCommas(text)).Some? ==> amount == ParseInt(StripCommas(text)).value
  {
    var parsed := ParseInt(StripCommas(text));
    if parsed.Some? then parsed.value else if text == "" then 0 else prev
  }

  /** Commas anywhere in a non-empty field make no difference to the amount. */
  lemma CommasIgnored(prev: int, a: string, b: string)
    requires a + b != ""
    ensures AmountAfterInput(prev, a + "," + b) == AmountAfterInput(prev, a + b)
  {
    StripCommasDropsComma(a, b);
  }

  lemma StripCommasDropsComma(a: string, b: string)
    ensures StripCommas(a + "," + b) == StripCommas(a + b)
  {
    StripCommasAppend(a + ",", b);
    StripCommasAppend(a, ",");
    StripCommasAppend(a, b);
    assert StripCommas(",") == [];
  }

  /**
   * A field of commas alone empties the parsed text but not the field, so
   * the amount stays; only the empty field itself gives 0.
   */
  lemma OnlyEmptyFieldGivesZero(prev: int, text: string)
    requires text != []
    requires forall i :: 0 <= i < |text| ==> text[i] == ','
    ensures AmountAfterInput(prev, text) == prev
    ensures AmountAfterInput(prev, "") == 0
  {
    NoDigitKeepsAmount(prev, text);
  }

  /** Text without a single digit, other than the empty text, leaves the amount unchanged. */
  lemma NoDigitKeepsAmount(prev: int, text: string)
    requires text != []
    requires forall i :: 0 <= i < |text| ==> !IsDigit(text[i])
    ensures AmountAfterInput(prev, text) == prev
  {
    var s := StripCommas(text);
    forall i | 0 <= i < |s| ensures !IsDigit(s[i]) {
      assert s[i] in s;
    }
    ParseIntNeedsDigit(s);
  }

  /** The three digits of `m`, zero-padded, as a thousands group is written. */
  function ThousandsGroup(m: nat): (g: string)
    requires m < 1000
    ensures |g| == 3 && AllDigits(g)
  {
    [DigitChar(m / 100), DigitChar(m / 10 % 10), DigitChar(m % 10)]
  }

  /** A non-negative integer with a comma between thousands groups. */
  function GroupedDigits(n: nat): (g: string)
    ensures g != [] && IsDigit(g[0])
  {
    if n < 1000 then NatToString(n) else GroupedDigits(n / 1000) + "," + ThousandsGroup(n % 1000)
  }

  /** `totalAmount.toLocaleString()` for an integer in the en-US locale: the text the field shows. */
  function FormatAmount(i: int): (text: string)
    ensures text != []
    ensures text[0] == '-' <==> i < 0
  {
    if i < 0 then "-" + GroupedDigits(-i) else GroupedDigits(i)
  }

  lemma {:induction false} DigitsValueOfGroup(a: string, m: nat)
    requires AllDigits(a) && m < 1000
    ensures AllDigits(a + ThousandsGroup(m))
    ensures DigitsValue(a + ThousandsGroup(m)) == DigitsValue(a) * 1000 + m
  {
    var g := ThousandsGroup(m);
    var s := a + g;
    assert s[..|s| - 1] == a + g[..2];
    assert (a + g[..2])[..|s| - 2] == a + g[..1];
    assert (a + g[..1])[..|s| - 3] == a;
    assert DigitsValue(a + g[..1]) == DigitsValue(a) * 10 + m / 100;
    assert DigitsValue(a + g[..2]) == DigitsValue(a) * 100 + m / 10;
  }

  lemma {:induction false} GroupedDigitsValue(n: nat)
    ensures StripCommas(GroupedDigits(n)) != []
    ensures AllDigits(StripCommas(GroupedDigits(n)))
    ensures DigitsValue(StripCommas(GroupedDigits(n))) == n
  {
    if n < 1000 {
      StripCommasOfDigits(NatToString(n));
      NatToStringValue(n);
    } else {
      var head, group := GroupedDigits(n / 1000), ThousandsGroup(n % 1000);
      GroupedDigitsValue(n / 1000);
      StripCommasAppend(head + ",", group);
      StripCommasAppend(head, ",");
      assert StripCommas(",") == [];
      StripCommasOfDigits(group);
      assert StripCommas(GroupedDigits(n)) == StripCommas(head) + group;
      DigitsValueOfGroup(StripCommas(head), n % 1000);
    }
  }

  /** Typing back the amount the field displays leaves the amount unchanged. */
  lemma DisplayedAmountReadsBack(prev: int, i: int)
    ensures AmountAfterInput(prev, FormatAmount(i)) == i
  {
    if i < 0 {
      var d := StripCommas(GroupedDigits(-i));
      GroupedDigitsValue(-i);
      StripCommasAppend("-", GroupedDigits(-i));
      var s := StripCommas(FormatAmount(i));
      assert s == "-" + d;
      assert s[1..] == d + [];
      ParseIntOfNegatedDigits(s, d, []);
    } else {
      var d := StripCommas(GroupedDigits(i));
      GroupedDigitsValue(i);
      ParseIntOfDigits(d, []);
      assert d + [] == d;
    }
  }

  /** The minimum as the field shows it, "260,000,000", reads as 260000000. */
  lemma MinimumReadsBack(prev: int)
    ensures AmountAfterInput(prev, "260,000,000") == MinTotal
  {
    assert NatToString(2) == "2";
    assert NatToString(26) == "26";
    assert NatToString(260) == "260";
    assert ThousandsGroup(0) == "000";
    assert GroupedDigits(260000) == "260,000";
    assert FormatAmount(MinTotal) == "260,000,000";
    DisplayedAmountReadsBack(prev, MinTotal);
  }

  // ---------------------------------------------------------------------
  // Deploy

  /** `p.verifiedAddresses.eth_addresses[0]`, `None` when the list is empty. */
  function FirstAddress(p: Profile): (a: Option<string>)
    ensures a.Some? <==> |p.ethAddresses| > 0
    ensures a.Some? ==> a.value == p.ethAddresses[0]
  {
    if |p.ethAddresses| > 0 then Some(p.ethAddresses[0]) else None
  }

  /**
   * The amount each wallet receives: the total divided by the number of
   * selected ids, or by 1 when none is selected (`size || 1`). Exact real
   * division stands for the component's floating-point division.
   */
  function Share(total: int, selectedCount: nat): (share: real)
    ensures selectedCount > 0 ==> share * selectedCount as real == total as real
    ensures selectedCount == 0 ==> share == total as real
    ensures total > 0 ==> share > 0.0
  {
    total as real / (if selectedCount == 0 then 1 else selectedCount) as real
  }

  /** `profiles.filter(p => selected.has(p.farcasterId)).map(...)` with every amount `amount`. */
  function SelectedEntries(ps: seq<Profile>, sel: set<string>, amount: real): (r: seq<Entry>)
    ensures |r| <= |ps|
    ensures forall k :: 0 <= k < |r| ==> r[k].amount == amount
  {
    if ps == [] then []
    else
      var init, last := ps[..|ps| - 1], ps[|ps| - 1];
      SelectedEntries(init, sel, amount)
      + (if last.farcasterId in sel then [Entry(FirstAddress(last), amount)] else [])
  }

  /** The positions of the selected profiles, in profile order. */
  function SelectedPositions(ps: seq<Profile>, sel: set<string>): seq<nat>
  {
    if ps == [] then []
    else
      SelectedPositions(ps[..|ps| - 1], sel)
      + (if ps[|ps| - 1].farcasterId in sel then [|ps| - 1] else [])
  }

  /**
   * `idx` lists, in increasing order, exactly the positions of the profiles
   * whose id is selected.
   */
  ghost predicate IsOrderedSelection(ps: seq<Profile>, sel: set<string>, idx: seq<nat>)
  {
    && (forall k :: 0 <= k < |idx| ==> idx[k] < |ps| && ps[idx[k]].farcasterId in sel)
    && (forall k, l :: 0 <= k < l < |idx| ==> idx[k] < idx[l])
    && (forall i :: 0 <= i < |ps| && ps[i].farcasterId in sel ==> i in idx)
  }

  /**
   * The deploy entries are the selected profiles, each exactly once and in
   * profile order, each with its first ETH address and the common amount.
   */
  lemma {:induction false} EntriesFollowSelectedProfiles(ps: seq<Profile>, sel: set<string>, amount: real)
    ensures IsOrderedSelection(ps, sel, SelectedPositions(ps, sel))
    ensures |SelectedEntries(ps, sel, amount)| == |SelectedPositions(ps, sel)|
    ensures forall k :: 0 <= k < |SelectedPositions(ps, sel)| ==>
              SelectedEntries(ps, sel, amount)[k]
              == Entry(FirstAddress(ps[SelectedPositions(ps, sel)[k]]), amount)
  {
    if ps != [] {
      var init := ps[..|ps| - 1];
      EntriesFollowSelectedProfiles(init, sel, amount);
      var idx, idx0 := SelectedPositions(ps, sel), SelectedPositions(init, sel);
      forall k | 0 <= k < |idx0| ensures idx[k] == idx0[k] && ps[idx[k]] == init[idx0[k]] {
      }
      forall i | 0 <= i < |ps| && ps[i].farcasterId in sel ensures i in idx {
        if i < |ps| - 1 {
          assert init[i] == ps[i];
          assert i in idx0;
        } else {
          assert idx[|idx| - 1] == i;
        }
      }
    }
  }

  /**
   * With distinct ids, the number of entries is the number of selected ids
   * that belong to some profile.
   */
  lemma {:induction false} EntryCount(ps: seq<Profile>, sel: set<string>, amount: real)
    requires DistinctIds(ps)
    ensures |SelectedEntries(ps, sel, amount)| == |sel * AllIds(ps)|
  {
    if ps != [] {
      var init, last := ps[..|ps| - 1], ps[|ps| - 1];
      assert DistinctIds(init) by {
        forall i, j | 0 <= i < j < |init| ensures init[i].farcasterId != init[j].farcasterId {
          assert init[i] == ps[i] && init[j] == ps[j];
        }
      }
      EntryCount(init, sel, amount);
      assert last.farcasterId !in AllIds(init) by {
        forall i | 0 <= i < |init| ensures init[i].farcasterId != last.farcasterId {
          assert init[i] == ps[i];
        }
      }
      if last.farcasterId in sel {
        assert sel * AllIds(ps) == sel * AllIds(init) + {last.farcasterId};
      } else {
        assert sel * AllIds(ps) == sel * AllIds(init);
      }
    }
  }

  /**
   * A selected id that no profile carries still counts in the divisor, so
   * there are fewer entries than selected ids.
   */
  lemma UnmatchedIdShrinksEntries(ps: seq<Profile>, sel: set<string>, amount: real, id: string)
    requires DistinctIds(ps)
    requires id in sel && id !in AllIds(ps)
    ensures |SelectedEntries(ps, sel, amount)| < |sel|
  {
    EntryCount(ps, sel, amount);
    var matched := sel * AllIds(ps);
    assert matched <= sel && id in sel - matched;
    assert |sel| == |matched| + |sel - matched|;
  }

  /**
   * A click on Deploy (`handleDeployClick`): refused below the minimum,
   * otherwise the entries of the selected profiles, all with the same
   * positive share of the total.
   */
  function HandleDeploy(ps: seq<Profile>, sel: set<string>, total: int): (r: DeployOutcome)
    ensures r.Rejected? <==> total < MinTotal
    ensures r.Deployed? ==> |r.entries| <= |ps|
    ensures r.Deployed? ==> forall k :: 0 <= k < |r.entries| ==>
              r.entries[k].amount == Share(total, |sel|) && r.entries[k].amount > 0.0
  {
    if total < MinTotal then Rejected
    else Deployed(SelectedEntries(ps, sel, Share(total, |sel|)))
  }

  /** After the modal opens on a non-empty list, Deploy pays every profile, in order. */
  lemma OpenThenDeployPaysEveryProfile(ps: seq<Profile>, sel: set<string>, total: int)
    requires |ps| > 0 && total >= MinTotal
    ensures var r := HandleDeploy(ps, OpenedSelection(true, ps, sel), total);
            r.Deployed? && |r.entries| == |ps|
            && forall k :: 0 <= k < |ps| ==> r.entries[k].address == FirstAddress(ps[k])
  {
    var all := AllIds(ps);
    var amount := Share(total, |all|);
    EntriesFollowSelectedProfiles(ps, all, amount);
    var idx := SelectedPositions(ps, all);
    PositionsAreIdentity(ps, all, idx, |ps| - 1);
    IncreasingFromZero(idx, |idx| - 1);
  }

  /**
   * When every profile is selected, an ordered selection lists the
   * positions 0, 1, .. in turn.
   */
  lemma {:induction false} PositionsAreIdentity(ps: seq<Profile>, sel: set<string>, idx: seq<nat>, k: nat)
    requires IsOrderedSelection(ps, sel, idx)
    requires forall i :: 0 <= i < |ps| ==> ps[i].farcasterId in sel
    requires k < |ps|
    ensures forall m :: 0 <= m <= k ==> m < |idx| && idx[m] == m
  {
    if k > 0 {
      PositionsAreIdentity(ps, sel, idx, k - 1);
    }
    assert k in idx;
    var j :| 0 <= j < |idx| && idx[j] == k;
    assert j >= k;
    IncreasingFromZero(idx, k);
    assert idx[k] <= idx[j];
  }

  lemma {:induction false} IncreasingFromZero(idx: seq<nat>, k: nat)
    requires forall a, b :: 0 <= a < b < |idx| ==> idx[a] < idx[b]
    requires k < |idx|
    ensures k <= idx[k]
  {
    if k > 0 {
      IncreasingFromZero(idx, k - 1);
    }
  }

  /**
   * The Deploy button's enabled condition: not deploying, not signing, a
   * non-empty selection and a total of at least the minimum.
   */
  function DeployEnabled(isDeploying: bool, isSigning: bool, sel: set<string>, total: int): (enabled: bool)
    ensures enabled ==> !isDeploying && !isSigning && sel != {} && total >= MinTotal
  {
    !(isDeploying || isSigning || |sel| == 0 || total < MinTotal)
  }

  /**
   * An enabled button never reaches the alert; with nothing in progress
   * and something selected, the button is enabled exactly when a click
   * would deploy.
   */
  lemma EnabledButtonDeploys(ps: seq<Profile>, sel: set<string>, total: int, isDeploying: bool, isSigning: bool)
    ensures DeployEnabled(isDeploying, isSigning, sel, total) ==> HandleDeploy(ps, sel, total).Deployed?
    ensures !isDeploying && !isSigning && |sel| > 0 ==>
              (DeployEnabled(isDeploying, isSigning, sel, total) <==> HandleDeploy(ps, sel, total).Deployed?)
  {
  }

  // ---------------------------------------------------------------------
  // The component's state

  /** The modal's mutable state: the `selectedProfiles` set and the `totalAmount` number. */
  class AirdropForm {
    var selected: set<string>
    var totalAmount: int

    /** `useState(260000000)` and `useState(new Set())`. */
    constructor ()
      ensures selected == {} && totalAmount == MinTotal
    {
      selected := {};
      totalAmount := MinTotal;
    }

    /** The effect on `[isOpen, profiles]`. */
    method OnOpen(isOpen: bool, profiles: seq<Profile>)
      modifies this`selected
      ensures selected == OpenedSelection(isOpen, profiles, old(selected))
    {
      if isOpen && |profiles| > 0 {
        selected := AllIds(profiles);
      }
    }

    /** `toggleProfileSelection`: copy the set, add or delete the id, store the copy. */
    method ToggleProfile(farcasterId: string)
      modifies this`selected
      ensures selected == Toggled(old(selected), farcasterId)
    {
      var newSelected := selected;
      if farcasterId in newSelected {
        newSelected := newSelected - {farcasterId};
      } else {
        newSelected := newSelected + {farcasterId};
      }
      selected := newSelected;
    }

    /** `toggleSelectAll`. */
    method ToggleSelectAll(profiles: seq<Profile>)
      modifies this`selected
      ensures selected == SelectAllToggled(old(selected), profiles)
    {
      if |selected| == |profiles| {
        selected := {};
      } else {
        selected := AllIds(profiles);
      }
    }

    /** `handleAmountChange` with the field's new text. */
    method ChangeAmount(text: string)
      modifies this`totalAmount
      ensures totalAmount == AmountAfterInput(old(totalAmount), text)
    {
      var val := ParseInt(StripCommas(text));
      if val.Some? {
        totalAmount := val.value;
      } else if text == "" {
        totalAmount := 0;
      }
    }
  }
}
