/**
 * The current version of the library, package `io.github.flecomte`:
 * decisions, responses, the `canAll` aggregator of `AccessKontrol`, the
 * extension functions on lists of responses and the queries of
 * `AccessDeniedException`. Every thrown exception is a `Failure` or `Fail`
 * value here.
 */
module AccessKontrol {
  import opened Wrappers
  import Lists

  /** Stands for the `AccessKontrol` instance that issued a response; carried along, never compared. */
  type CheckerId = nat

  /** The exceptions the operations of this package throw. */
  datatype Error =
    | NoDecision      // `NoDecision`: no response to decide from
    | NoSuchElement   // `List.first()` on a list without a matching element
    | IllegalState    // `error("DeniedResponses cannot be empty")`

  datatype AccessDecision = Granted | Denied {
    /** `AccessDecision.toBoolean`. */
    function ToBoolean(): (b: bool)
      ensures b <==> this == Granted
      ensures !b <==> this == Denied
    {
      match this
      case Granted => true
      case Denied => false
    }
  }

  /**
   * `AccessResponse`, sealed: a `GrantedResponse` has an optional message and
   * code, a `DeniedResponse` a mandatory message and code.
   */
  datatype AccessResponse =
    | GrantedResponse(issuer: CheckerId, grantedMessage: Option<string>, grantedCode: Option<string>)
    | DeniedResponse(issuer: CheckerId, deniedMessage: string, deniedCode: string)
  {
    /** The decision field, fixed by the variant. */
    function Decision(): (d: AccessDecision)
      ensures d == Granted <==> GrantedResponse?
      ensures d == Denied <==> DeniedResponse?
    {
      if GrantedResponse? then Granted else Denied
    }

    /** The `message` field, as the base class sees it. */
    function Message(): (m: Option<string>)
      ensures Decision() == Denied ==> m.Some?
    {
      match this
      case GrantedResponse(_, message, _) => message
      case DeniedResponse(_, message, _) => Some(message)
    }

    /** The `code` field, as the base class sees it. */
    function Code(): (c: Option<string>)
      ensures Decision() == Denied ==> c.Some?
    {
      match this
      case GrantedResponse(_, _, code) => code
      case DeniedResponse(_, _, code) => Some(code)
    }

    /** `AccessResponse.toBoolean`: delegates to the decision. */
    function ToBoolean(): (b: bool)
      ensures b == Decision().ToBoolean()
      ensures b <==> GrantedResponse?
    {
      Decision().ToBoolean()
    }

    /** `AccessResponse.assert`: throws an exception wrapping this response alone when it is denied. */
    function Assert(): (o: Outcome<AccessDeniedException>)
      ensures o.Fail? <==> !ToBoolean()
      ensures o.Fail? ==> o.error.Valid() && o.error.accessResponses == [this]
    {
      if Decision() == Denied then Fail(AccessDeniedException([this])) else Pass
    }
  }

  predicate IsGranted(r: AccessResponse) {
    r.Decision() == Granted
  }

  predicate IsDenied(r: AccessResponse) {
    r.Decision() == Denied
  }

  /** `code == c`, as the exception queries test it. */
  function HasCode(c: string): AccessResponse -> bool {
    (r: AccessResponse) => r.Code() == Some(c)
  }

  /** A denied response whose code is `c`. */
  function DeniedWithCode(c: string): AccessResponse -> bool {
    (r: AccessResponse) => r.Decision() == Denied && r.Code() == Some(c)
  }

  /** `AccessKontrol.granted`: the shortcut for a granted response of `issuer`. */
  function GrantedBy(issuer: CheckerId, message: Option<string>, code: Option<string>): (r: AccessResponse)
    ensures r.Decision() == Granted && r.issuer == issuer
    ensures r.Message() == message && r.Code() == code
  {
    GrantedResponse(issuer, message, code)
  }

  /** `AccessKontrol.denied`: the shortcut for a denied response of `issuer`. */
  function DeniedBy(issuer: CheckerId, message: string, code: string): (r: AccessResponse)
    ensures r.Decision() == Denied && r.issuer == issuer
    ensures r.Message() == Some(message) && r.Code() == Some(code)
  {
    DeniedResponse(issuer, message, code)
  }

  /** `grantedResponses`: the granted elements of `rs`, in order. */
  function GrantedOf(rs: seq<AccessResponse>): (g: seq<AccessResponse>)
    ensures forall r :: r in g <==> r in rs && r.GrantedResponse?
  {
    Lists.Filter(rs, IsGranted)
  }

  /** `deniedResponses`: the denied elements of `rs`, in order. */
  function DeniedOf(rs: seq<AccessResponse>): (d: seq<AccessResponse>)
    ensures forall r :: r in d <==> r in rs && r.DeniedResponse?
  {
    Lists.Filter(rs, IsDenied)
  }

  /** `List<AccessResponse>.toBoolean`: true when no response is denied. */
  function ResponsesToBoolean(rs: seq<AccessResponse>): (b: bool)
    ensures b <==> forall i :: 0 <= i < |rs| ==> rs[i].ToBoolean()
  {
    assert forall i :: 0 <= i < |rs| ==> rs[i] in rs;
    assert DeniedOf(rs) != [] ==> DeniedOf(rs)[0] in DeniedOf(rs);
    DeniedOf(rs) == []
  }

  /** `List<AccessResponse>.assert`: throws an exception wrapping the whole list when one response is denied. */
  function AssertAll(rs: seq<AccessResponse>): (o: Outcome<AccessDeniedException>)
    ensures o.Fail? <==> !ResponsesToBoolean(rs)
    ensures o.Fail? <==> exists i :: 0 <= i < |rs| && rs[i].Decision() == Denied
    ensures o.Fail? ==> o.error.Valid() && o.error.accessResponses == rs
  {
    if !ResponsesToBoolean(rs) then Fail(AccessDeniedException(rs)) else Pass
  }

  /** `getFirstDecisionResponse`: the first denied response, or else the first response. */
  function GetFirstDecisionResponse(rs: seq<AccessResponse>): (r: Result<AccessResponse, Error>)
    ensures r.Failure? <==> rs == []
    ensures r.Failure? ==> r.error == NoDecision
    ensures r.Success? ==> r.value in rs
    ensures r.Success? ==> (r.value.Decision() == Denied <==> exists i :: 0 <= i < |rs| && rs[i].Decision() == Denied)
    ensures r.Success? && r.value.Decision() == Denied ==>
              exists i :: Lists.FirstMatchAt(rs, IsDenied, i) && rs[i] == r.value
    ensures r.Success? && r.value.Decision() == Granted ==> r.value == rs[0]
  {
    if rs == [] then Failure(NoDecision)
    else
      match Lists.FirstOrNull(rs, IsDenied)
      case Some(d) => Success(d)
      case None => Success(rs[0])
  }

  /**
   * A list of responses that is itself a response: `GrantedResponses` or
   * `DeniedResponses`. As a response it stands for the first element of its
   * own kind.
   */
  datatype AccessResponses =
    | GrantedResponses(responses: seq<AccessResponse>)
    | DeniedResponses(responses: seq<AccessResponse>)
  {
    /** The first element of the set's own kind exists: what its Kotlin constructor demands. */
    predicate Valid() {
      if GrantedResponses? then GrantedOf(responses) != [] else DeniedOf(responses) != []
    }

    /** The response the set stands for: the first granted (resp. denied) element. */
    function AsResponse(): (r: AccessResponse)
      requires Valid()
      ensures r.Decision() == (if GrantedResponses? then Granted else Denied)
      ensures Lists.FirstOrNull(responses, if GrantedResponses? then IsGranted else IsDenied) == Some(r)
    {
      if GrantedResponses? then
        Lists.FilterHead(responses, IsGranted);
        GrantedOf(responses)[0]
      else
        Lists.FilterHead(responses, IsDenied);
        DeniedOf(responses)[0]
    }
  }

  /** The `GrantedResponses` constructor: fails when the list holds no granted response. */
  function NewGrantedResponses(rs: seq<AccessResponse>): (r: Result<AccessResponses, Error>)
    ensures r.Success? <==> exists i :: 0 <= i < |rs| && rs[i].GrantedResponse?
    ensures r.Failure? ==> r.error == NoSuchElement
    ensures r.Success? ==> r.value.GrantedResponses? && r.value.Valid() && r.value.responses == rs
  {
    assert forall i :: 0 <= i < |rs| ==> rs[i] in rs;
    assert GrantedOf(rs) != [] ==> GrantedOf(rs)[0] in GrantedOf(rs);
    if GrantedOf(rs) == [] then Failure(NoSuchElement) else Success(GrantedResponses(rs))
  }

  /** The `DeniedResponses` constructor: fails when the list holds no denied response. */
  function NewDeniedResponses(rs: seq<AccessResponse>): (r: Result<AccessResponses, Error>)
    ensures r.Success? <==> exists i :: 0 <= i < |rs| && rs[i].DeniedResponse?
    ensures r.Failure? ==> r.error == IllegalState
    ensures r.Success? ==> r.value.DeniedResponses? && r.value.Valid() && r.value.responses == rs
    ensures r.Success? ==> r.value.AsResponse().Message() == Some(DeniedOf(rs)[0].deniedMessage)
    ensures r.Success? ==> r.value.AsResponse().Code() == Some(DeniedOf(rs)[0].deniedCode)
  {
    assert forall i :: 0 <= i < |rs| ==> rs[i] in rs;
    assert DeniedOf(rs) != [] ==> DeniedOf(rs)[0] in DeniedOf(rs);
    if DeniedOf(rs) == [] then Failure(IllegalState) else Success(DeniedResponses(rs))
  }

  /**
   * `AccessKontrol.canAll`: applies `action` to every item, in order and
   * without stopping early, and classifies the responses: `DeniedResponses`
   * when one of them is denied, `GrantedResponses` otherwise. No items, no
   * decision.
   */
  function CanAll<T>(items: seq<T>, action: T -> AccessResponse): (r: Result<AccessResponses, Error>)
    ensures r.Failure? <==> items == []
    ensures r.Failure? ==> r.error == NoDecision
    ensures r.Success? ==> |r.value.responses| == |items|
    ensures r.Success? ==> forall i :: 0 <= i < |items| ==> r.value.responses[i] == action(items[i])
    ensures r.Success? ==> r.value.Valid()
    ensures r.Success? ==> (r.value.DeniedResponses? <==> exists i :: 0 <= i < |items| && action(items[i]).Decision() == Denied)
  {
    if items == [] then Failure(NoDecision)
    else
      var responses := seq(|items|, i requires 0 <= i < |items| => action(items[i]));
      if exists r :: r in responses && r.DeniedResponse? then
        NewDeniedResponses(responses)
      else
        assert responses[0].GrantedResponse?;
        NewGrantedResponses(responses)
  }

  /**
   * `AccessDeniedException`: wraps the responses of a failed assertion; every
   * query reads only the denied ones.
   */
  datatype AccessDeniedException = AccessDeniedException(accessResponses: seq<AccessResponse>)
  {
    /** Its Kotlin constructor reads the message of the first denied response. */
    predicate Valid() {
      DeniedOf(accessResponses) != []
    }

    /** `first()`: the first denied response. */
    function First(): (r: AccessResponse)
      requires Valid()
      ensures r.Decision() == Denied
      ensures Lists.FirstOrNull(accessResponses, IsDenied) == Some(r)
    {
      Lists.FilterHead(accessResponses, IsDenied);
      DeniedOf(accessResponses)[0]
    }

    /** `hasErrorCode(c)`: some denied response has code `c`. */
    function HasErrorCode(c: string): (b: bool)
      requires Valid()
      ensures b <==> exists i :: 0 <= i < |accessResponses| && DeniedWithCode(c)(accessResponses[i])
    {
      var d := DeniedOf(accessResponses);
      assert forall i :: 0 <= i < |d| ==> d[i] in accessResponses;
      assert forall i :: 0 <= i < |accessResponses| && accessResponses[i].DeniedResponse? ==> accessResponses[i] in d;
      exists r :: r in d && HasCode(c)(r)
    }

    /** `getErrorCode(c)`: the first denied response with code `c`, if any. */
    function GetErrorCode(c: string): (r: Option<AccessResponse>)
      requires Valid()
      ensures r.Some? <==> HasErrorCode(c)
      ensures r == Lists.FirstOrNull(accessResponses, DeniedWithCode(c))
    {
      Lists.FirstOrNullOfFilter(accessResponses, IsDenied, HasCode(c), DeniedWithCode(c));
      Lists.FirstOrNull(DeniedOf(accessResponses), HasCode(c))
    }

    /** `getMessages()`: the messages of the denied responses, in order. */
    function GetMessages(): (ms: seq<string>)
      requires Valid()
      ensures |ms| == |DeniedOf(accessResponses)|
      ensures forall m :: m in ms <==> exists r :: r in accessResponses && r.Decision() == Denied && r.Message() == Some(m)
    {
      var d := DeniedOf(accessResponses);
      var ms := seq(|d|, i requires 0 <= i < |d| => assert d[i] in d; d[i].deniedMessage);
      assert forall i :: 0 <= i < |d| ==> ms[i] == d[i].deniedMessage && ms[i] in ms && d[i] in d;
      ms
    }

    /** `getFirstMessage()`: the message of the first denied response. */
    function GetFirstMessage(): (m: string)
      requires Valid()
      ensures Some(m) == First().Message()
      ensures GetMessages() != [] && m == GetMessages()[0]
    {
      var d := DeniedOf(accessResponses);
      assert d[0] in d;
      d[0].deniedMessage
    }
  }

  /** The exception constructor: fails, like `first()`, when no response is denied. */
  function NewAccessDeniedException(rs: seq<AccessResponse>): (r: Result<AccessDeniedException, Error>)
    ensures r.Success? <==> exists i :: 0 <= i < |rs| && rs[i].Decision() == Denied
    ensures r.Failure? ==> r.error == NoSuchElement
    ensures r.Success? ==> r.value.Valid() && r.value.accessResponses == rs
  {
    assert forall i :: 0 <= i < |rs| ==> rs[i] in rs;
    assert DeniedOf(rs) != [] ==> DeniedOf(rs)[0] in DeniedOf(rs);
    if DeniedOf(rs) == [] then Failure(NoSuchElement) else Success(AccessDeniedException(rs))
  }

  /**
   * The messages of an exception over `a + b` are those over `a` followed by
   * those over `b`: `getMessages` keeps the order of the responses.
   */
  lemma {:induction false} MessagesAppend(a: seq<AccessResponse>, b: seq<AccessResponse>)
    requires AccessDeniedException(a).Valid() && AccessDeniedException(b).Valid()
    ensures AccessDeniedException(a + b).Valid()
    ensures AccessDeniedException(a + b).GetMessages()
         == AccessDeniedException(a).GetMessages() + AccessDeniedException(b).GetMessages()
  {
    Lists.FilterAppend(a, b, IsDenied);
    var ms := AccessDeniedException(a + b).GetMessages();
    var ma, mb := AccessDeniedException(a).GetMessages(), AccessDeniedException(b).GetMessages();
    var da, db := DeniedOf(a), DeniedOf(b);
    assert DeniedOf(a + b) == da + db;
    forall i | 0 <= i < |ms| ensures ms[i] == (ma + mb)[i] {
      if i < |da| {
        assert (da + db)[i] == da[i];
      } else {
        assert (da + db)[i] == db[i - |da|];
      }
    }
  }
}
