/**
 * The sample checker of the test suite, `AccessControlSample`, and its
 * scenarios stated as lemmas about the current version of the library.
 */
module AccessKontrolSample {
  import opened Wrappers
  import opened AccessKontrol
  import Lists

  /** The one `AccessControlSample` instance the scenarios use. */
  const Sample: CheckerId := 0

  datatype User = User(name: string)

  datatype MyObject = MyObject(title: string)

  /** `canView(myObject, user)`: only a "granted" object seen by some user is granted. */
  function CanView(obj: MyObject, user: Option<User>): (r: AccessResponse)
    ensures r.ToBoolean() <==> obj.title == "granted" && user.Some?
    ensures !r.ToBoolean() ==> r.Code() == Some(if obj.title == "wrong2" then "ko2" else "ko")
  {
    if obj.title == "granted" && user.Some? then GrantedBy(Sample, Some("ok"), None)
    else if obj.title == "wrong2" then DeniedBy(Sample, "KO2", "ko2")
    else DeniedBy(Sample, "KO", "ko")
  }

  function Viewer(user: Option<User>): MyObject -> AccessResponse {
    obj => CanView(obj, user)
  }

  /** `canView(myObjects, user)`: one response per object, through `canAll`. */
  function CanViewAll(objs: seq<MyObject>, user: Option<User>): (r: Result<AccessResponses, Error>)
    ensures r.Failure? <==> objs == []
    ensures r.Success? ==> (r.value.GrantedResponses? <==>
                             user.Some? && forall i :: 0 <= i < |objs| ==> objs[i].title == "granted")
  {
    var r := CanAll(objs, Viewer(user));
    assert forall i :: 0 <= i < |objs| ==> Viewer(user)(objs[i]) == CanView(objs[i], user);
    r
  }

  /** Whoever sees a list of objects, an empty list has no decision. */
  lemma NoObjectsNoDecision(user: Option<User>)
    ensures CanViewAll([], user) == Failure(NoDecision)
  {
  }

  /** "test canAllGranted": two granted objects give a granted set whose first element is granted. */
  lemma CanAllGranted()
    ensures var r := CanViewAll([MyObject("granted"), MyObject("granted")], Some(User("")));
            r.Success? && r.value.GrantedResponses? && r.value.responses[0].ToBoolean()
  {
  }

  /** "test CanAllDenied": one wrong object among granted ones makes the list false. */
  lemma CanAllDenied()
    ensures var r := CanViewAll([MyObject("granted"), MyObject("wrong")], Some(User("")));
            r.Success? && r.value.DeniedResponses? && !ResponsesToBoolean(r.value.responses)
  {
  }

  /** "test Assert on fail" and "test Assert on success". */
  lemma AssertSingle()
    ensures CanView(MyObject("denied"), Some(User(""))).Assert().Fail?
    ensures CanView(MyObject("granted"), Some(User(""))).Assert() == Pass
  {
  }

  /** The responses the sample gives for the objects wrong, granted, wrong2, in that order. */
  const Mixed: seq<AccessResponse> :=
    [DeniedResponse(Sample, "KO", "ko"), GrantedResponse(Sample, Some("ok"), None), DeniedResponse(Sample, "KO2", "ko2")]

  lemma MixedResponses()
    ensures var r := CanViewAll([MyObject("wrong"), MyObject("granted"), MyObject("wrong2")], Some(User("")));
            r.Success? && r.value.DeniedResponses? && r.value.responses == Mixed
  {
    var objs := [MyObject("wrong"), MyObject("granted"), MyObject("wrong2")];
    var rs := CanViewAll(objs, Some(User(""))).value.responses;
    assert rs[0] == CanView(objs[0], Some(User("")));
    assert rs[1] == CanView(objs[1], Some(User("")));
    assert rs[2] == CanView(objs[2], Some(User("")));
  }

  lemma MixedDenials()
    ensures DeniedOf(Mixed) == [Mixed[0], Mixed[2]]
  {
    assert Mixed[1..] == [Mixed[1], Mixed[2]] && Mixed[1..][1..] == [Mixed[2]] && Mixed[1..][1..][1..] == [];
    assert Lists.Filter(Mixed[1..][1..], IsDenied) == [Mixed[2]];
    assert Lists.Filter(Mixed[1..], IsDenied) == [Mixed[2]];
  }

  /**
   * "Exception tests": asserting the list wrong, granted, wrong2 throws, and
   * the exception's queries read the two denied responses in order.
   */
  lemma ExceptionQueries()
    ensures AssertAll(Mixed) == Fail(AccessDeniedException(Mixed))
    ensures AccessDeniedException(Mixed).Valid()
    ensures AccessDeniedException(Mixed).First().Code() == Some("ko")
    ensures AccessDeniedException(Mixed).HasErrorCode("ko")
    ensures !AccessDeniedException(Mixed).HasErrorCode("notExists")
    ensures AccessDeniedException(Mixed).GetErrorCode("ko") == Some(Mixed[0])
    ensures AccessDeniedException(Mixed).GetErrorCode("notExists") == None
    ensures AccessDeniedException(Mixed).GetMessages() == ["KO", "KO2"]
    ensures AccessDeniedException(Mixed).GetFirstMessage() == "KO"
  {
    MixedDenials();
    var e := AccessDeniedException(Mixed);
    assert DeniedWithCode("ko")(Mixed[0]);
    assert Lists.FirstMatchAt(Mixed, DeniedWithCode("ko"), 0);
    assert !e.HasErrorCode("notExists");
  }

  /** "Assert success": asserting a list of granted responses passes. */
  lemma AssertListSuccess()
    ensures var r := CanViewAll([MyObject("granted"), MyObject("granted")], Some(User("")));
            r.Success? && AssertAll(r.value.responses) == Pass
  {
  }

  /** "test getFirstDecisionResponse" and its denied counterpart. */
  lemma FirstDecision()
    ensures var r := CanViewAll([MyObject("granted"), MyObject("granted")], Some(User("")));
            r.Success? && GetFirstDecisionResponse(r.value.responses).Success?
            && GetFirstDecisionResponse(r.value.responses).value.Decision().ToBoolean()
    ensures var r := CanViewAll([MyObject("granted"), MyObject("denied")], Some(User("")));
            r.Success? && GetFirstDecisionResponse(r.value.responses).Success?
            && !GetFirstDecisionResponse(r.value.responses).value.Decision().ToBoolean()
  {
  }

  /** "DeniedResponses must be throw exception if have no denied responses". */
  lemma DeniedResponsesOfGranted()
    ensures NewDeniedResponses([GrantedResponse(Sample, None, None)]) == Failure(IllegalState)
  {
  }
}
