/**
 * The `farcaster_users` collection: how a Neynar user payload becomes a
 * Farcaster user document, the write that replaces the document stored under
 * the fid, and the lookups by fid and by username. The collection is a map
 * from document id to document plus the order in which a query returns them.
 */
module FarcasterUsers {
  import opened Wrappers
  import JsNumbers

  /** One entry of the payload's `verified_accounts`. */
  datatype VerifiedAccount = VerifiedAccount(platform: string, username: string)

  /** The Neynar user payload; `None` stands for a field that is absent or null. */
  datatype NeynarUser = NeynarUser(
    fid: int,
    username: string,
    displayName: Option<string>,
    pfpUrl: Option<string>,
    custodyAddress: string,
    followerCount: Option<int>,
    followingCount: Option<int>,
    verifications: Option<seq<string>>,
    verifiedAccounts: Option<seq<VerifiedAccount>>)

  /** A stored document; an optional field that is `None` is absent from it. */
  datatype FarcasterUser = FarcasterUser(
    fid: int,
    username: string,
    displayName: Option<string>,
    pfpUrl: Option<string>,
    custodyAddress: string,
    followerCount: int,
    followingCount: int,
    verifications: Option<seq<string>>,
    xUsername: Option<string>,
    createdAt: int,
    updatedAt: int)

  /** A JavaScript string value that is truthy: present and not empty. */
  predicate Truthy(s: Option<string>) { s.Some? && s.value != "" }

  /** `count || 0`: a missing count becomes 0, any count present is kept. */
  function CountOrZero(c: Option<int>): (n: int)
    ensures c.Some? ==> n == c.value
    ensures c.None? ==> n == 0
  {
    if c.Some? && c.value != 0 then c.value else 0
  }

  /** The position of the first account on platform "x" (`find`). */
  function FirstXAccount(accounts: seq<VerifiedAccount>): (r: Option<nat>)
    ensures r.Some? ==> r.value < |accounts| && accounts[r.value].platform == "x"
    ensures forall j :: 0 <= j < |accounts| && (r.None? || j < r.value) ==> accounts[j].platform != "x"
  {
    if accounts == [] then None
    else if accounts[0].platform == "x" then Some(0)
    else
      match FirstXAccount(accounts[1..])
      case None => None
      case Some(i) => Some(i + 1)
  }

  /** `verified_accounts?.find(acc => acc.platform === 'x')?.username`. */
  function XUsername(accounts: Option<seq<VerifiedAccount>>): (r: Option<string>)
    ensures r.None? <==> accounts.None? || forall a :: a in accounts.value ==> a.platform != "x"
    ensures r.Some? ==> exists a :: a in accounts.value && a.platform == "x" && a.username == r.value
  {
    if accounts.None? then None
    else
      match FirstXAccount(accounts.value)
      case None => None
      case Some(i) => Some(accounts.value[i].username)
  }

  /**
   * The X username is that of the first account on platform "x"; without
   * such an account there is none.
   */
  lemma XUsernameIsFirstX(accounts: seq<VerifiedAccount>, i: nat)
    requires i < |accounts| && accounts[i].platform == "x"
    requires forall j :: 0 <= j < i ==> accounts[j].platform != "x"
    ensures XUsername(Some(accounts)) == Some(accounts[i].username)
  {
  }

  /** Accounts after the first "x" account make no difference. */
  lemma {:induction false} LaterXAccountsIgnored(first: seq<VerifiedAccount>, later: seq<VerifiedAccount>)
    requires exists j :: 0 <= j < |first| && first[j].platform == "x"
    ensures XUsername(Some(first + later)) == XUsername(Some(first))
  {
    var j :| 0 <= j < |first| && first[j].platform == "x";
    var i := FirstXAccount(first).value;
    assert (first + later)[i] == first[i];
    XUsernameIsFirstX(first + later, i);
  }

  /**
   * The document `createOrUpdateFarcasterUser` builds from the payload `u`,
   * the document already stored under the fid (if any) and the clock
   * reading `now`.
   */
  function UserDoc(u: NeynarUser, existing: Option<FarcasterUser>, now: int): (d: FarcasterUser)
    ensures d.fid == u.fid && d.username == u.username && d.custodyAddress == u.custodyAddress
    ensures d.followerCount == CountOrZero(u.followerCount)
    ensures d.followingCount == CountOrZero(u.followingCount)
    ensures d.createdAt == (if existing.Some? then existing.value.createdAt else now)
    ensures d.updatedAt == now
    ensures d.displayName.Some? <==> Truthy(u.displayName)
    ensures d.displayName.Some? ==> d.displayName == u.displayName
    ensures d.pfpUrl.Some? <==> Truthy(u.pfpUrl)
    ensures d.pfpUrl.Some? ==> d.pfpUrl == u.pfpUrl
    ensures d.verifications.Some? <==> u.verifications.Some? && |u.verifications.value| > 0
    ensures d.verifications.Some? ==> d.verifications == u.verifications
    ensures d.xUsername.Some? <==> Truthy(XUsername(u.verifiedAccounts))
    ensures d.xUsername.Some? ==> d.xUsername == XUsername(u.verifiedAccounts)
  {
    var x := XUsername(u.verifiedAccounts);
    FarcasterUser(
      fid := u.fid,
      username := u.username,
      displayName := if Truthy(u.displayName) then u.displayName else None,
      pfpUrl := if Truthy(u.pfpUrl) then u.pfpUrl else None,
      custodyAddress := u.custodyAddress,
      followerCount := CountOrZero(u.followerCount),
      followingCount := CountOrZero(u.followingCount),
      verifications := if u.verifications.Some? && |u.verifications.value| > 0 then u.verifications else None,
      xUsername := if Truthy(x) then x else None,
      createdAt := if existing.Some? then existing.value.createdAt else now,
      updatedAt := now)
  }

  /**
   * The builder as the TypeScript code runs it: the required fields first, then each
   * optional field assigned only when it has a value.
   */
  method BuildUserDoc(u: NeynarUser, existing: Option<FarcasterUser>, now: int) returns (d: FarcasterUser)
    ensures d == UserDoc(u, existing, now)
  {
    var xUsername := XUsername(u.verifiedAccounts);
    d := FarcasterUser(
      fid := u.fid,
      username := u.username,
      displayName := None,
      pfpUrl := None,
      custodyAddress := u.custodyAddress,
      followerCount := CountOrZero(u.followerCount),
      followingCount := CountOrZero(u.followingCount),
      verifications := None,
      xUsername := None,
      createdAt := if existing.Some? then existing.value.createdAt else now,
      updatedAt := now);
    if Truthy(u.displayName) {
      d := d.(displayName := u.displayName);
    }
    if Truthy(u.pfpUrl) {
      d := d.(pfpUrl := u.pfpUrl);
    }
    if u.verifications.Some? && |u.verifications.value| > 0 {
      d := d.(verifications := u.verifications);
    }
    if Truthy(xUsername) {
      d := d.(xUsername := xUsername);
    }
  }

  // ---------------------------------------------------------------------
  // The collection

  /** The document id of a fid: `fid.toString()`. */
  function FidKey(fid: int): (key: string)
    ensures key != [] && (key[0] == '-' <==> fid < 0)
    ensures JsNumbers.ParseInt(key) == Some(fid)
  {
    JsNumbers.ParseIntAfterToString(fid, []);
    assert JsNumbers.IntToString(fid) + [] == JsNumbers.IntToString(fid);
    JsNumbers.IntToString(fid)
  }

  /** `getFarcasterUserByFid`: the document stored under the fid's key, if any. */
  function LookupByFid(docs: map<string, FarcasterUser>, fid: int): (r: Option<FarcasterUser>)
    ensures r.None? <==> FidKey(fid) !in docs
    ensures r.Some? ==> r.value == docs[FidKey(fid)]
  {
    if FidKey(fid) in docs then Some(docs[FidKey(fid)]) else None
  }

  /** The position in `order` of the first document whose username is `username`. */
  function FirstWithUsername(order: seq<string>, docs: map<string, FarcasterUser>, username: string): (r: Option<nat>)
    ensures r.Some? ==> r.value < |order| && order[r.value] in docs && docs[order[r.value]].username == username
    ensures forall j :: 0 <= j < |order| && (r.None? || j < r.value) && order[j] in docs ==>
              docs[order[j]].username != username
  {
    if order == [] then None
    else if order[0] in docs && docs[order[0]].username == username then Some(0)
    else
      match FirstWithUsername(order[1..], docs, username)
      case None => None
      case Some(i) => Some(i + 1)
  }

  /** `getFarcasterUserByUsername`: the first document of the query whose username matches. */
  function LookupByUsername(order: seq<string>, docs: map<string, FarcasterUser>, username: string): (r: Option<FarcasterUser>)
    ensures r.Some? ==> r.value.username == username && r.value in docs.Values
    ensures r.None? <==> forall j :: 0 <= j < |order| && order[j] in docs ==> docs[order[j]].username != username
  {
    match FirstWithUsername(order, docs, username)
    case None => None
    case Some(i) => Some(docs[order[i]])
  }

  /** The query order lists every stored document exactly once. */
  predicate WellFormed(order: seq<string>, docs: map<string, FarcasterUser>)
  {
    && (forall i :: 0 <= i < |order| ==> order[i] in docs)
    && (forall k :: k in docs ==> k in order)
    && (forall i, j :: 0 <= i < j < |order| ==> order[i] != order[j])
  }

  /**
   * The username lookup finds nothing exactly when no document has that
   * username, and otherwise a stored document with that username, the
   * first one in query order.
   */
  lemma LookupByUsernameFinds(order: seq<string>, docs: map<string, FarcasterUser>, username: string)
    requires WellFormed(order, docs)
    ensures LookupByUsername(order, docs, username).None? <==>
              forall k :: k in docs ==> docs[k].username != username
    ensures LookupByUsername(order, docs, username).Some? ==>
              exists i :: 0 <= i < |order| && LookupByUsername(order, docs, username) == Some(docs[order[i]])
                && docs[order[i]].username == username
                && forall j :: 0 <= j < i ==> docs[order[j]].username != username
  {
    var r := FirstWithUsername(order, docs, username);
    if r.None? {
      forall k | k in docs ensures docs[k].username != username {
        var j :| 0 <= j < |order| && order[j] == k;
      }
    } else {
      var i := r.value;
      assert LookupByUsername(order, docs, username) == Some(docs[order[i]]);
    }
  }

  /** The store after `createOrUpdateFarcasterUser(u)` at time `now`: the fid's document replaced whole. */
  function StoreAfterWrite(docs: map<string, FarcasterUser>, u: NeynarUser, now: int): (r: map<string, FarcasterUser>)
    ensures r.Keys == docs.Keys + {FidKey(u.fid)}
    ensures r[FidKey(u.fid)].fid == u.fid && r[FidKey(u.fid)].updatedAt == now
    ensures forall k :: k in docs && k != FidKey(u.fid) ==> r[k] == docs[k]
  {
    docs[FidKey(u.fid) := UserDoc(u, LookupByFid(docs, u.fid), now)]
  }

  /** The query order after a write: a new document joins at the end. */
  function OrderAfterWrite(order: seq<string>, docs: map<string, FarcasterUser>, fid: int): (r: seq<string>)
    ensures order <= r && |r| <= |order| + 1
    ensures FidKey(fid) !in docs ==> |r| == |order| + 1 && r[|order|] == FidKey(fid)
  {
    if FidKey(fid) in docs then order else order + [FidKey(fid)]
  }

  /**
   * Looking up the written fid gives exactly the built document (whose
   * optional fields are only those rebuilt from `u`); every other fid
   * gives what it gave before.
   */
  lemma WriteThenLookup(docs: map<string, FarcasterUser>, u: NeynarUser, now: int, fid: int)
    ensures LookupByFid(StoreAfterWrite(docs, u, now), fid)
            == if fid == u.fid then Some(UserDoc(u, LookupByFid(docs, u.fid), now))
               else LookupByFid(docs, fid)
  {
    JsNumbers.IntToStringInjective(fid, u.fid);
  }

  lemma WriteKeepsWellFormed(order: seq<string>, docs: map<string, FarcasterUser>, u: NeynarUser, now: int)
    requires WellFormed(order, docs)
    ensures WellFormed(OrderAfterWrite(order, docs, u.fid), StoreAfterWrite(docs, u, now))
  {
  }

  /** After a write, looking up its username finds a document with that username. */
  lemma WrittenUsernameFound(order: seq<string>, docs: map<string, FarcasterUser>, u: NeynarUser, now: int)
    requires WellFormed(order, docs)
    ensures var r := LookupByUsername(OrderAfterWrite(order, docs, u.fid), StoreAfterWrite(docs, u, now), u.username);
            r.Some? && r.value.username == u.username
  {
    var order', docs' := OrderAfterWrite(order, docs, u.fid), StoreAfterWrite(docs, u, now);
    WriteKeepsWellFormed(order, docs, u, now);
    LookupByUsernameFinds(order', docs', u.username);
    assert docs'[FidKey(u.fid)].username == u.username;
  }

  /** One call of `createOrUpdateFarcasterUser`: the payload and the clock reading. */
  datatype Write = Write(user: NeynarUser, now: int)

  /** The store after a sequence of writes, in order. */
  function StoreAfterWrites(docs: map<string, FarcasterUser>, writes: seq<Write>): map<string, FarcasterUser>
  {
    if writes == [] then docs
    else
      var last := writes[|writes| - 1];
      StoreAfterWrite(StoreAfterWrites(docs, writes[..|writes| - 1]), last.user, last.now)
  }

  /**
   * However many times a fid is written, its document keeps the creation
   * time of the first write (or of the document already there) and carries
   * the time of the last write.
   */
  lemma {:induction false} CreatedAtSurvivesUpdates(docs: map<string, FarcasterUser>, writes: seq<Write>, fid: int)
    requires |writes| > 0
    requires forall k :: 0 <= k < |writes| ==> writes[k].user.fid == fid
    ensures var r := LookupByFid(StoreAfterWrites(docs, writes), fid);
            r.Some?
            && r.value.createdAt == (if FidKey(fid) in docs then docs[FidKey(fid)].createdAt else writes[0].now)
            && r.value.updatedAt == writes[|writes| - 1].now
  {
    var init, last := writes[..|writes| - 1], writes[|writes| - 1];
    var before := StoreAfterWrites(docs, init);
    WriteThenLookup(before, last.user, last.now, fid);
    if init != [] {
      CreatedAtSurvivesUpdates(docs, init, fid);
    }
  }

  /** Writes to other fids leave a fid's document as it was. */
  lemma {:induction false} OtherFidsUntouched(docs: map<string, FarcasterUser>, writes: seq<Write>, fid: int)
    requires forall k :: 0 <= k < |writes| ==> writes[k].user.fid != fid
    ensures LookupByFid(StoreAfterWrites(docs, writes), fid) == LookupByFid(docs, fid)
  {
    if writes != [] {
      var init, last := writes[..|writes| - 1], writes[|writes| - 1];
      OtherFidsUntouched(docs, init, fid);
      WriteThenLookup(StoreAfterWrites(docs, init), last.user, last.now, fid);
    }
  }

  /** The `farcaster_users` collection, updated in place by the write. */
  class FarcasterUserStore {
    var docs: map<string, FarcasterUser>
    var order: seq<string>

    ghost predicate Valid()
      reads this
    {
      WellFormed(order, docs)
    }

    constructor ()
      ensures Valid() && docs == map[] && order == []
    {
      docs := map[];
      order := [];
    }

    /**
     * `createOrUpdateFarcasterUser`: read the document under the fid, build
     * the new one, and store it with `setDoc` (no merge), replacing the old
     * document whole. Returns the document it stored.
     */
    method CreateOrUpdate(u: NeynarUser, now: int) returns (d: FarcasterUser)
      requires Valid()
      modifies this
      ensures Valid()
      ensures d == UserDoc(u, LookupByFid(old(docs), u.fid), now)
      ensures docs == StoreAfterWrite(old(docs), u, now)
      ensures order == OrderAfterWrite(old(order), old(docs), u.fid)
      ensures LookupByFid(docs, u.fid) == Some(d)
    {
      var fidString := FidKey(u.fid);
      var existingDoc := LookupByFid(docs, u.fid);
      d := BuildUserDoc(u, existingDoc, now);
      WriteKeepsWellFormed(order, docs, u, now);
      if fidString !in docs {
        order := order + [fidString];
      }
      docs := docs[fidString := d];
    }
  }
}
