/**
 * How the two versions of the library relate: a response of the earlier
 * package carries over unchanged to the current one, and on the same
 * responses the two agree on the decision of `canAll`, of the list
 * assertion and of `hasErrorCode`. They differ on no items, on what a
 * granted `canAll` carries, on what the list assertion's exception wraps
 * and on what `first` and the messages read.
 */
module Versions {
  import opened Wrappers
  import Lists
  import New = AccessKontrol
  import Old = AccessControl

  /** The same response, as a value of the current package. */
  function Upgrade(r: Old.AccessResponse): (u: New.AccessResponse)
    ensures u.ToBoolean() == r.ToBoolean()
    ensures u.issuer == r.issuer && u.Message() == r.Message() && u.Code() == r.Code()
  {
    match r
    case GrantedResponse(issuer, message, code) => New.GrantedResponse(issuer, message, code)
    case DeniedResponse(issuer, message, code) => New.DeniedResponse(issuer, message, code)
  }

  function UpgradeAll(rs: seq<Old.AccessResponse>): (us: seq<New.AccessResponse>)
    ensures |us| == |rs|
    ensures forall i :: 0 <= i < |rs| ==> us[i] == Upgrade(rs[i])
  {
    seq(|rs|, i requires 0 <= i < |rs| => Upgrade(rs[i]))
  }

  /** A check of the earlier package, answering with responses of the current one. */
  function Upgraded<T>(action: T -> Old.AccessResponse): T -> New.AccessResponse {
    x => Upgrade(action(x))
  }

  /**
   * On no items the versions disagree: the current `canAll` has no decision,
   * the earlier one grants.
   */
  lemma CanAllOnNoItems<T>(issuer: Old.CheckerId, action: T -> Old.AccessResponse)
    ensures New.CanAll([], Upgraded(action)) == Failure(New.NoDecision)
    ensures Old.CanAll(issuer, [], action) == Old.GrantedResponse(issuer, None, None)
  {
  }

  /**
   * Upgrading keeps positions and decisions, so the first denied response
   * of the upgraded list is the upgrade of the first denied response.
   */
  lemma FirstDeniedAgree(rs: seq<Old.AccessResponse>, k: int)
    requires Lists.FirstMatchAt(rs, Old.IsDenied, k)
    ensures Lists.FirstOrNull(UpgradeAll(rs), New.IsDenied) == Some(Upgrade(rs[k]))
  {
    var us := UpgradeAll(rs);
    assert Lists.FirstMatchAt(us, New.IsDenied, k);
    var r := Lists.FirstOrNull(us, New.IsDenied);
    var i :| Lists.FirstMatchAt(us, New.IsDenied, i) && us[i] == r.value;
    Lists.FirstMatchUnique(us, New.IsDenied, i, k);
  }

  /**
   * On some items the versions agree: the current `canAll` yields
   * `DeniedResponses` exactly when the earlier one denies, and the response
   * the set stands for is then the one the earlier version returns.
   */
  lemma CanAllAgree<T>(issuer: Old.CheckerId, items: seq<T>, action: T -> Old.AccessResponse)
    requires items != []
    ensures New.CanAll(items, Upgraded(action)).Success?
    ensures var aggregate := New.CanAll(items, Upgraded(action)).value;
            var one := Old.CanAll(issuer, items, action);
            && (aggregate.DeniedResponses? <==> one.Decision() == Old.Denied)
            && (aggregate.DeniedResponses? ==> aggregate.AsResponse() == Upgrade(one))
  {
    var aggregate := New.CanAll(items, Upgraded(action)).value;
    var one := Old.CanAll(issuer, items, action);
    var olds := seq(|items|, i requires 0 <= i < |items| => action(items[i]));
    assert aggregate.responses == UpgradeAll(olds);
    if aggregate.DeniedResponses? {
      var k :| 0 <= k < |items| && one == action(items[k])
               && forall j :: 0 <= j < k ==> action(items[j]).Decision() == Old.Granted;
      FirstDeniedAgree(olds, k);
    }
  }

  /**
   * On a non-empty list the two list assertions pass on the same lists; on
   * the empty list the current one passes while the earlier one throws.
   */
  lemma AssertAllAgree(rs: seq<Old.AccessResponse>)
    ensures rs != [] ==> (Old.AssertAll(rs).Pass? <==> New.AssertAll(UpgradeAll(rs)).Pass?)
    ensures rs == [] ==> Old.AssertAll(rs) == Fail(Old.NoSuchElement) && New.AssertAll(UpgradeAll(rs)).Pass?
  {
  }

  /**
   * Over the same responses the two exceptions find the same code: both
   * look only at the denied responses.
   */
  lemma HasErrorCodeAgree(rs: seq<Old.AccessResponse>, c: string)
    requires New.AccessDeniedException(UpgradeAll(rs)).Valid()
    ensures Old.AccessDeniedException(rs).Valid()
    ensures Old.AccessDeniedException(rs).HasErrorCode(c) == New.AccessDeniedException(UpgradeAll(rs)).HasErrorCode(c)
  {
    var us := UpgradeAll(rs);
    var d := New.DeniedOf(us);
    assert d[0] in d;
    forall i | 0 <= i < |rs|
      ensures Old.DeniedWithCode(c)(rs[i]) == New.DeniedWithCode(c)(us[i])
    {
    }
  }

  /**
   * Where the two exceptions differ: over a granted response followed by a
   * denied one, the earlier version's `first` is the granted response and
   * its messages include the granted one; the current version reads only
   * the denied response.
   */
  lemma ExceptionQueriesDiffer()
    ensures var rs := [Old.GrantedResponse(0, Some("ok"), None), Old.DeniedResponse(0, "KO", "ko")];
            var earlier := Old.AccessDeniedException(rs);
            var current := New.AccessDeniedException(UpgradeAll(rs));
            && earlier.Valid() && current.Valid()
            && earlier.First().Decision() == Old.Granted && current.First().Decision() == New.Denied
            && earlier.GetMessages() == ["ok", "KO"] && current.GetMessages() == ["KO"]
  {
    var rs := [Old.GrantedResponse(0, Some("ok"), None), Old.DeniedResponse(0, "KO", "ko")];
    var us := UpgradeAll(rs);
    assert us == [New.GrantedResponse(0, Some("ok"), None), New.DeniedResponse(0, "KO", "ko")];
    assert rs[1..][1..] == [];
    assert us[1..][1..] == [];
    assert New.DeniedOf(us) == [us[1]];
  }

  /**
   * Where the two `canAll` differ on granted items: the current set stands
   * for its first granted element, with that element's issuer, message and
   * code, while the earlier version answers with a bare granted response of
   * the checker.
   */
  lemma GrantedAggregateDiffers()
    ensures var aggregate := New.CanAll([0], Upgraded(GrantedOk));
            && aggregate.Success? && aggregate.value.GrantedResponses?
            && aggregate.value.AsResponse() == New.GrantedResponse(7, Some("ok"), None)
            && Old.CanAll(0, [0], GrantedOk) == Old.GrantedResponse(0, None, None)
  {
    var aggregate := New.CanAll([0], Upgraded(GrantedOk));
    assert aggregate.Success?;
    var rs := aggregate.value.responses;
    assert |rs| == 1;
    assert rs[0] == Upgraded(GrantedOk)([0][0]) == Upgrade(GrantedOk(0));
    assert rs == [New.GrantedResponse(7, Some("ok"), None)];
    assert rs[1..] == [];
  }

  /** A check of the earlier package that grants every item, as checker 7, with message "ok". */
  function GrantedOk(x: int): Old.AccessResponse {
    Old.GrantedResponse(7, Some("ok"), None)
  }

  /**
   * Where the two list assertions differ on denials: the current exception
   * wraps the whole list, the earlier one only its first denied response.
   */
  lemma AssertAllWrapsDiffer()
    ensures var rs := [Old.DeniedResponse(0, "KO", "ko"), Old.DeniedResponse(0, "KO2", "ko2")];
            && New.AssertAll(UpgradeAll(rs)).Fail?
            && New.AssertAll(UpgradeAll(rs)).error.accessResponses == UpgradeAll(rs)
            && Old.AssertAll(rs).Fail? && Old.AssertAll(rs).error.AccessDenied?
            && Old.AssertAll(rs).error.exception.accessResponses == [rs[0]]
  {
    var rs := [Old.DeniedResponse(0, "KO", "ko"), Old.DeniedResponse(0, "KO2", "ko2")];
    assert Lists.FirstMatchAt(rs, Old.IsDenied, 0);
  }
}
