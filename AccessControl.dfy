/**
 * The earlier version of the library, package `fr.dcproject.common.security`.
 * Its data model repeats the one of the current version, but `canAll`
 * collapses the responses into one (the first denied, or a fresh granted
 * one, also for no items at all), and the exception queries read every
 * wrapped response, granted ones included.
 */
module AccessControl {
  import opened Wrappers
  import Lists

  /** Stands for the `AccessControl` instance that issued a response; carried along, never compared. */
  type CheckerId = nat

  /** The exceptions the operations of this package throw. */
  datatype Error =
    | NoSuchElement                                 // `List.first()` on an empty list
    | AccessDenied(exception: AccessDeniedException)

  datatype AccessDecision = Granted | Denied {
    /** `AccessDecision.toBoolean`. */
    function ToBoolean(): (b: bool)
      ensures b <==> this == Granted
      ensures !b <==> this == Denied
    {
      match this
      case Granted => true
      case Denied => false
    }
  }

  /** `AccessResponse`, sealed, with its two final subclasses. */
  datatype AccessResponse =
    | GrantedResponse(issuer: CheckerId, grantedMessage: Option<string>, grantedCode: Option<string>)
    | DeniedResponse(issuer: CheckerId, deniedMessage: string, deniedCode: string)
  {
    /** The decision field, fixed by the variant. */
    function Decision(): (d: AccessDecision)
      ensures d == Granted <==> GrantedResponse?
      ensures d == Denied <==> DeniedResponse?
    {
      if GrantedResponse? then Granted else Denied
    }

    /** The nullable `message` field. */
    function Message(): (m: Option<string>)
      ensures Decision() == Denied ==> m.Some?
    {
      match this
      case GrantedResponse(_, message, _) => message
      case DeniedResponse(_, message, _) => Some(message)
    }

    /** The nullable `code` field. */
    function Code(): (c: Option<string>)
      ensures Decision() == Denied ==> c.Some?
    {
      match this
      case GrantedResponse(_, _, code) => code
      case DeniedResponse(_, _, code) => Some(code)
    }

    /** `AccessResponse.toBoolean`: delegates to the decision. */
    function ToBoolean(): (b: bool)
      ensures b == Decision().ToBoolean()
      ensures b <==> GrantedResponse?
    {
      Decision().ToBoolean()
    }

    /** `AccessResponse.assert`: throws an exception wrapping this response alone when it is denied. */
    function Assert(): (o: Outcome<AccessDeniedException>)
      ensures o.Fail? <==> !ToBoolean()
      ensures o.Fail? ==> o.error.Valid() && o.error.accessResponses == [this] && o.error.First() == this
    {
      if Decision() == Denied then Fail(AccessDeniedException([this])) else Pass
    }
  }

  predicate IsDenied(r: AccessResponse) {
    r.Decision() == Denied
  }

  /** A denied response whose code is `c`. */
  function DeniedWithCode(c: string): AccessResponse -> bool {
    (r: AccessResponse) => r.Decision() == Denied && r.Code() == Some(c)
  }

  /** `AccessControl.granted`: the shortcut for a granted response of `issuer`. */
  function GrantedBy(issuer: CheckerId, message: Option<string>, code: Option<string>): (r: AccessResponse)
    ensures r.Decision() == Granted && r.issuer == issuer
    ensures r.Message() == message && r.Code() == code
  {
    GrantedResponse(issuer, message, code)
  }

  /** `AccessControl.denied`: the shortcut for a denied response of `issuer`. */
  function DeniedBy(issuer: CheckerId, message: string, code: string): (r: AccessResponse)
    ensures r.Decision() == Denied && r.issuer == issuer
    ensures r.Message() == Some(message) && r.Code() == Some(code)
  {
    DeniedResponse(issuer, message, code)
  }

  /**
   * The private `getOneResponse` of `AccessControl`: the first denied
   * response, or else a bare granted response of the checker itself.
   */
  function OneResponseOf(issuer: CheckerId, rs: seq<AccessResponse>): (r: AccessResponse)
    ensures r.Decision() == Denied <==> exists i :: 0 <= i < |rs| && rs[i].Decision() == Denied
    ensures r.Decision() == Denied ==> exists i :: Lists.FirstMatchAt(rs, IsDenied, i) && rs[i] == r
    ensures r.Decision() == Granted ==> r == GrantedResponse(issuer, None, None)
  {
    match Lists.FirstOrNull(rs, IsDenied)
    case Some(d) => d
    case None => GrantedBy(issuer, None, None)
  }

  /**
   * `AccessControl.canAll`: applies `action` to every item and keeps the
   * first denied response in item order; with none, including for no items
   * at all, the answer is granted.
   */
  function CanAll<T>(issuer: CheckerId, items: seq<T>, action: T -> AccessResponse): (r: AccessResponse)
    ensures r.Decision() == Denied <==> exists i :: 0 <= i < |items| && action(items[i]).Decision() == Denied
    ensures r.Decision() == Denied ==>
              exists i :: 0 <= i < |items| && r == action(items[i])
                       && forall j :: 0 <= j < i ==> action(items[j]).Decision() == Granted
    ensures r.Decision() == Granted ==> r == GrantedResponse(issuer, None, None)
  {
    var responses := seq(|items|, i requires 0 <= i < |items| => action(items[i]));
    assert forall i :: 0 <= i < |items| ==> responses[i] == action(items[i]);
    assert forall i :: Lists.FirstMatchAt(responses, IsDenied, i) ==> responses[i] == action(items[i]);
    OneResponseOf(issuer, responses)
  }

  /**
   * The public `getOneResponse`: the first denied response, or else a bare
   * granted response of the first element's issuer; `first()` throws on an
   * empty list.
   */
  function GetOneResponse(rs: seq<AccessResponse>): (r: Result<AccessResponse, Error>)
    ensures r.Failure? <==> rs == []
    ensures r.Failure? ==> r.error == NoSuchElement
    ensures r.Success? ==> (r.value.Decision() == Denied <==> exists i :: 0 <= i < |rs| && rs[i].Decision() == Denied)
    ensures r.Success? && r.value.Decision() == Denied ==>
              exists i :: Lists.FirstMatchAt(rs, IsDenied, i) && rs[i] == r.value
    ensures r.Success? && r.value.Decision() == Granted ==> r.value == GrantedResponse(rs[0].issuer, None, None)
  {
    match Lists.FirstOrNull(rs, IsDenied)
    case Some(d) => Success(d)
    case None => if rs == [] then Failure(NoSuchElement) else Success(GrantedBy(rs[0].issuer, None, None))
  }

  /**
   * `List<AccessResponse>.assert`: asserts the one response of the list, so
   * the exception wraps the first denied response alone.
   */
  function AssertAll(rs: seq<AccessResponse>): (o: Outcome<Error>)
    ensures o.Pass? <==> rs != [] && forall i :: 0 <= i < |rs| ==> rs[i].ToBoolean()
    ensures o.Fail? && o.error.NoSuchElement? <==> rs == []
    ensures o.Fail? && o.error.AccessDenied? ==>
              o.error.exception.Valid()
              && |o.error.exception.accessResponses| == 1
              && exists i :: Lists.FirstMatchAt(rs, IsDenied, i) && o.error.exception.First() == rs[i]
  {
    match GetOneResponse(rs)
    case Failure(e) => Fail(e)
    case Success(r) =>
      match r.Assert()
      case Pass => Pass
      case Fail(exception) => Fail(AccessDenied(exception))
  }

  /**
   * `AccessDeniedException`: wraps a list of responses; `first` and the
   * messages read every response, the code queries only the denied ones.
   */
  datatype AccessDeniedException = AccessDeniedException(accessResponses: seq<AccessResponse>)
  {
    /** Its Kotlin constructor reads the message of the first response. */
    predicate Valid() {
      accessResponses != []
    }

    /** `first()`: the first response, whatever its decision. */
    function First(): (r: AccessResponse)
      requires Valid()
      ensures r == accessResponses[0]
    {
      accessResponses[0]
    }

    /** `hasErrorCode(c)`: some denied response has code `c`. */
    function HasErrorCode(c: string): (b: bool)
      requires Valid()
      ensures b <==> exists i :: 0 <= i < |accessResponses| && DeniedWithCode(c)(accessResponses[i])
    {
      var d := Lists.Filter(accessResponses, IsDenied);
      assert forall i :: 0 <= i < |d| ==> d[i] in accessResponses;
      assert forall i :: 0 <= i < |accessResponses| ==> accessResponses[i] in accessResponses;
      exists r :: r in d && r.Code() == Some(c)
    }

    /** `getErrorCode(c)`: the first denied response with code `c`, if any. */
    function GetErrorCode(c: string): (r: Option<AccessResponse>)
      requires Valid()
      ensures r.Some? <==> HasErrorCode(c)
      ensures r.Some? ==> r.value.Decision() == Denied && r.value.Code() == Some(c)
      ensures r.Some? ==> exists i :: Lists.FirstMatchAt(accessResponses, DeniedWithCode(c), i) && accessResponses[i] == r.value
    {
      Lists.FirstOrNull(accessResponses, DeniedWithCode(c))
    }

    /** `getMessages()`: the messages present on any response, granted or denied, in order. */
    function GetMessages(): (ms: seq<string>)
      requires Valid()
      ensures |ms| <= |accessResponses|
      ensures forall m :: m in ms <==> exists r :: r in accessResponses && r.Message() == Some(m)
    {
      Lists.MapNotNull(accessResponses, (r: AccessResponse) => r.Message())
    }

    /** `getFirstMessage()`: the message of the first response, which may be absent. */
    function GetFirstMessage(): (m: Option<string>)
      requires Valid()
      ensures m == First().Message()
      ensures m.Some? ==> GetMessages() != [] && GetMessages()[0] == m.value
    {
      var rs := accessResponses;
      assert rs == [rs[0]] + rs[1..];
      Lists.MapNotNullAppend([rs[0]], rs[1..], (r: AccessResponse) => r.Message());
      rs[0].Message()
    }
  }

  /** The exception constructor: fails, like `first()`, on an empty list. */
  function NewAccessDeniedException(rs: seq<AccessResponse>): (r: Result<AccessDeniedException, Error>)
    ensures r.Success? <==> |rs| > 0
    ensures r.Failure? ==> r.error == NoSuchElement
    ensures r.Success? ==> r.value.Valid() && r.value.accessResponses == rs
  {
    if rs == [] then Failure(NoSuchElement) else Success(AccessDeniedException(rs))
  }

  /**
   * The messages of an exception over `a + b` are those over `a` followed by
   * those over `b`: `getMessages` keeps the order of the responses.
   */
  lemma MessagesAppend(a: seq<AccessResponse>, b: seq<AccessResponse>)
    requires AccessDeniedException(a).Valid() && AccessDeniedException(b).Valid()
    ensures AccessDeniedException(a + b).Valid()
    ensures AccessDeniedException(a + b).GetMessages()
         == AccessDeniedException(a).GetMessages() + AccessDeniedException(b).GetMessages()
  {
    Lists.MapNotNullAppend(a, b, (r: AccessResponse) => r.Message());
  }
}
