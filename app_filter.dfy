/**
 * The global exception filter: turns whatever was thrown into the standard
 * error response. An HTTP exception keeps its status; otherwise the first
 * entry of the exception-mapping table whose class the exception is an
 * instance of decides status and message; anything else is a 500.
 */
module AppFilter {
  import opened Wrappers
  import opened Errors
  import opened Text

  // ---------------------------------------------------------------- messages

  /** The `message` of an exception's response body: an array of lines or a single value. */
  datatype Message = Lines(parts: seq<string>) | Single(text: string)

  /** What `getResponse()` gives: a string, or an object that may carry a `message`. */
  datatype Response = Plain(text: string) | Body(message: Option<Message>)

  /** `String(o)` of an object. */
  const OBJECT_STRING: string := "[object Object]"

  const LINE_SEPARATOR: string := ", "

  /**
   * `formatMessage`: the lines of an array message joined by `", "`, a single
   * message as it is, a string response as it is, and an object without a
   * message printed as an object.
   */
  function FormatMessage(response: Response): (s: string)
    ensures response.Plain? ==> s == response.text
    ensures response == Body(None) ==> s == OBJECT_STRING
    ensures response.Body? && response.message.Some? && response.message.value.Single? ==> s == response.message.value.text
    ensures response.Body? && response.message.Some? && response.message.value.Lines? ==>
      var parts := response.message.value.parts;
      && (|parts| == 0 ==> s == "")
      && (|parts| >= 1 ==> |s| == SumOfLengths(parts) + (|parts| - 1) * |LINE_SEPARATOR|)
      && (forall i :: 0 <= i < |parts| ==> OccursIn(s, parts[i]))
  {
    match response
    case Plain(text) => text
    case Body(None) => OBJECT_STRING
    case Body(Some(Single(text))) => text
    case Body(Some(Lines(parts))) =>
      JoinHoldsEveryPart(parts, LINE_SEPARATOR);
      if |parts| >= 1 then JoinLength(parts, LINE_SEPARATOR); Join(parts, LINE_SEPARATOR)
      else Join(parts, LINE_SEPARATOR)
  }

  /** A string occurring in t occurs in any string that ends with t. */
  lemma OccursAfter(a: string, t: string, x: string, i: nat)
    requires OccursAt(t, x, i)
    ensures OccursAt(a + t, x, |a| + i)
  {
    assert (a + t)[|a| + i..|a| + i + |x|] == t[i..i + |x|];
  }

  /** Every line of an array message appears in the joined message. */
  lemma {:induction false} JoinHoldsEveryPart(parts: seq<string>, sep: string)
    ensures forall i :: 0 <= i < |parts| ==> OccursIn(Join(parts, sep), parts[i])
    decreases |parts|
  {
    if |parts| == 1 {
      assert OccursAt(Join(parts, sep), parts[0], 0);
    } else if |parts| > 1 {
      JoinHoldsEveryPart(parts[1..], sep);
      var s := Join(parts, sep);
      var front := parts[0] + sep;
      assert s == front + Join(parts[1..], sep);
      assert OccursAt(s, parts[0], 0);
      forall i | 1 <= i < |parts| ensures OccursIn(s, parts[i]) {
        assert parts[i] == parts[1..][i - 1];
        var j: nat :| OccursAt(Join(parts[1..], sep), parts[i], j);
        OccursAfter(front, Join(parts[1..], sep), parts[i], j);
      }
    }
  }

  // ---------------------------------------------------------------- error text

  const UNKNOWN_ERROR: string := "Unknown Error"

  /** The text for each HTTP status. */
  const RESPONSE_MESSAGES: map<int, string> := map[
    100 := "继续请求", 101 := "正在切换协议", 102 := "正在处理中", 103 := "预加载提示",
    200 := "请求成功", 201 := "创建成功", 202 := "请求已接受", 203 := "非权威信息",
    204 := "无内容", 205 := "重置内容", 206 := "部分内容",
    300 := "多种选择", 301 := "永久移动", 302 := "临时移动", 303 := "查看其它位置",
    304 := "未修改", 307 := "临时重定向", 308 := "永久重定向",
    400 := "请求参数错误", 401 := "未授权，请先登录", 402 := "需要付款", 403 := "禁止访问",
    404 := "资源不存在", 405 := "请求方法不允许", 406 := "不接受的请求", 407 := "需要代理认证",
    408 := "请求超时", 409 := "资源冲突", 410 := "资源已被永久移除", 411 := "需要内容长度",
    412 := "前提条件失败", 413 := "请求实体过大", 414 := "URI过长", 415 := "不支持的媒体类型",
    416 := "请求范围不符合要求", 417 := "预期失败", 418 := "我是个茶壶（愚人节笑话）",
    421 := "错误导向的请求", 422 := "无法处理的实体", 424 := "依赖失败", 428 := "需要前提条件",
    429 := "请求过于频繁，请稍后重试",
    500 := "服务器内部错误", 501 := "未实现的功能", 502 := "网关错误", 503 := "服务暂时不可用",
    504 := "网关超时", 505 := "不支持的HTTP版本"
  ]

  /** The `error` field: the status's text, or "Unknown Error" when the table has none. */
  function ErrorText(status: int): (s: string)
    ensures s != ""
    ensures status in RESPONSE_MESSAGES && RESPONSE_MESSAGES[status] != "" ==> s == RESPONSE_MESSAGES[status]
    ensures status !in RESPONSE_MESSAGES ==> s == UNKNOWN_ERROR
  {
    if status in RESPONSE_MESSAGES && RESPONSE_MESSAGES[status] != "" then RESPONSE_MESSAGES[status] else UNKNOWN_ERROR
  }

  /** Every status a service failure carries has its own text. */
  lemma FailureStatusHasText(f: Failure)
    ensures StatusOf(f) in RESPONSE_MESSAGES
    ensures ErrorText(StatusOf(f)) == RESPONSE_MESSAGES[StatusOf(f)] != UNKNOWN_ERROR
  {
  }

  // ---------------------------------------------------------------- dispatch

  /** The exception classes the mapping table names, and any other class by its name. */
  datatype ErrorClass =
    | NotFoundError
    | ValidationError
    | UniqueConstraintViolation
    | DatabaseObjectNotFound
    | SyntaxError
    | TableNotFound
    | Deadlock
    | OtherClass(name: string)

  /**
   * The mapped classes an exception of class c is an instance of: the ORM
   * declares its table-not-found exception as a kind of object-not-found
   * exception; every other class here stands alone.
   */
  function InstanceOf(c: ErrorClass): (classes: set<ErrorClass>)
    ensures c in classes
  {
    if c == TableNotFound then {TableNotFound, DatabaseObjectNotFound} else {c}
  }

  datatype Mapping = Mapping(cls: ErrorClass, status: int, message: string)

  /** The exception-mapping table, in the order the filter searches it. */
  const EXCEPTION_MAPPINGS: seq<Mapping> := [
    Mapping(NotFoundError, 404, "请求的资源不存在，请检查后重试"),
    Mapping(ValidationError, 400, "输入数据格式有误，请检查后重试"),
    Mapping(UniqueConstraintViolation, 409, "该记录已存在，请勿重复添加"),
    Mapping(DatabaseObjectNotFound, 404, "请求的数据不存在，请刷新后重试"),
    Mapping(SyntaxError, 400, "请求处理失败，请稍后重试"),
    Mapping(TableNotFound, 404, "系统配置异常，请联系管理员"),
    Mapping(Deadlock, 503, "系统繁忙，请稍后重试")
  ]

  /** What reaches the filter: an HTTP exception, or another error with the classes it is an instance of. */
  datatype Thrown =
    | HttpError(status: int, response: Response)
    | Raised(classes: set<ErrorClass>, message: string)

  /** The standard error response. */
  datatype ErrorResponse = ErrorResponse(statusCode: int, message: string, error: string,
                                         path: string, verb: string, timestamp: string)

  /** `exceptionMappings.find(m => exception instanceof m.class)`, searched from entry i on. */
  function FirstMatch(table: seq<Mapping>, classes: set<ErrorClass>, i: nat := 0): (r: Option<nat>)
    requires i <= |table|
    ensures r.Some? ==> i <= r.value < |table| && table[r.value].cls in classes
    ensures r.Some? ==> forall j :: i <= j < r.value ==> table[j].cls !in classes
    ensures r.None? <==> forall j :: i <= j < |table| ==> table[j].cls !in classes
    decreases |table| - i
  {
    if i == |table| then None
    else if table[i].cls in classes then Some(i)
    else FirstMatch(table, classes, i + 1)
  }

  /** `createErrorResponse`: the status's text goes with it. */
  function CreateErrorResponse(status: int, message: string, path: string, verb: string, timestamp: string): (e: ErrorResponse)
    ensures e.statusCode == status && e.message == message && e.error == ErrorText(status)
    ensures e.path == path && e.verb == verb && e.timestamp == timestamp
  {
    ErrorResponse(status, message, ErrorText(status), path, verb, timestamp)
  }

  /**
   * `catch`: an HTTP exception keeps its status and formatted message; else
   * the first matching mapping gives status and message (falling back to the
   * exception's own message when the mapping's is empty); else 500 with the
   * exception's message.
   */
  function Catch(table: seq<Mapping>, e: Thrown, path: string, verb: string, timestamp: string): (resp: ErrorResponse)
    ensures resp.error == ErrorText(resp.statusCode)
    ensures resp.path == path && resp.verb == verb && resp.timestamp == timestamp
    ensures e.HttpError? ==> resp.statusCode == e.status && resp.message == FormatMessage(e.response)
    ensures e.Raised? && FirstMatch(table, e.classes).Some? ==>
      var m := table[FirstMatch(table, e.classes).value];
      && resp.statusCode == m.status
      && resp.message == (if m.message != "" then m.message else e.message)
    ensures e.Raised? && FirstMatch(table, e.classes).None? ==> resp.statusCode == 500 && resp.message == e.message
  {
    match e
    case HttpError(status, response) => CreateErrorResponse(status, FormatMessage(response), path, verb, timestamp)
    case Raised(classes, message) =>
      match FirstMatch(table, classes)
      case Some(i) =>
        var m := table[i];
        CreateErrorResponse(m.status, if m.message != "" then m.message else message, path, verb, timestamp)
      case None => CreateErrorResponse(500, message, path, verb, timestamp)
  }

  /** Every mapped status, and the 500 of an unknown error, has its own text. */
  lemma MappedStatusesHaveText()
    ensures forall m :: m in EXCEPTION_MAPPINGS ==> m.status in RESPONSE_MESSAGES && ErrorText(m.status) != UNKNOWN_ERROR
    ensures 500 in RESPONSE_MESSAGES && ErrorText(500) != UNKNOWN_ERROR
  {
    forall m | m in EXCEPTION_MAPPINGS
      ensures m.status in RESPONSE_MESSAGES && ErrorText(m.status) != UNKNOWN_ERROR
    {
      MappedStatusHasText(m.status);
    }
    MappedStatusHasText(500);
  }

  /** The statuses the mapping table uses, and 500, each have a non-empty text. */
  lemma MappedStatusHasText(status: int)
    requires status in {400, 404, 409, 500, 503}
    ensures status in RESPONSE_MESSAGES && ErrorText(status) != UNKNOWN_ERROR
  {
    if status == 400 {
      assert RESPONSE_MESSAGES[400] == "请求参数错误";
    } else if status == 404 {
      assert RESPONSE_MESSAGES[404] == "资源不存在";
    } else if status == 409 {
      assert RESPONSE_MESSAGES[409] == "资源冲突";
    } else if status == 500 {
      assert RESPONSE_MESSAGES[500] == "服务器内部错误";
    } else {
      assert RESPONSE_MESSAGES[503] == "服务暂时不可用";
    }
  }

  /** A service failure reaches the client with its own status and that status's text. */
  lemma FailureResponse(f: Failure, response: Response, path: string, verb: string, timestamp: string)
    ensures var resp := Catch(EXCEPTION_MAPPINGS, HttpError(StatusOf(f), response), path, verb, timestamp);
      && resp.statusCode == StatusOf(f) && resp.error == RESPONSE_MESSAGES[StatusOf(f)]
  {
    FailureStatusHasText(f);
  }

  /**
   * As written, a missing table is answered with the object-not-found entry
   * that precedes its own: the table-not-found entry is never chosen.
   */
  lemma TableNotFoundIsShadowed(message: string, path: string, verb: string, timestamp: string)
    ensures FirstMatch(EXCEPTION_MAPPINGS, InstanceOf(TableNotFound)) == Some(3)
    ensures Catch(EXCEPTION_MAPPINGS, Raised(InstanceOf(TableNotFound), message), path, verb, timestamp).message
            == "请求的数据不存在，请刷新后重试"
    ensures forall c :: FirstMatch(EXCEPTION_MAPPINGS, InstanceOf(c)) != Some(5)
  {
    assert FirstMatch(EXCEPTION_MAPPINGS, InstanceOf(TableNotFound), 3) == Some(3);
    forall c ensures FirstMatch(EXCEPTION_MAPPINGS, InstanceOf(c)) != Some(5) {
    }
  }

  /** The table with the more specific table-not-found entry ahead of the object-not-found one. */
  const ORDERED_MAPPINGS: seq<Mapping> := [
    Mapping(NotFoundError, 404, "请求的资源不存在，请检查后重试"),
    Mapping(ValidationError, 400, "输入数据格式有误，请检查后重试"),
    Mapping(UniqueConstraintViolation, 409, "该记录已存在，请勿重复添加"),
    Mapping(TableNotFound, 404, "系统配置异常，请联系管理员"),
    Mapping(DatabaseObjectNotFound, 404, "请求的数据不存在，请刷新后重试"),
    Mapping(SyntaxError, 400, "请求处理失败，请稍后重试"),
    Mapping(Deadlock, 503, "系统繁忙，请稍后重试")
  ]

  /** In the reordered table every entry answers the exceptions of its own class, and no entry is lost. */
  lemma EveryOrderedMappingIsReachable()
    ensures forall m :: m in EXCEPTION_MAPPINGS <==> m in ORDERED_MAPPINGS
    ensures forall i :: 0 <= i < |ORDERED_MAPPINGS| ==>
      FirstMatch(ORDERED_MAPPINGS, InstanceOf(ORDERED_MAPPINGS[i].cls)) == Some(i)
  {
    forall i | 0 <= i < |ORDERED_MAPPINGS|
      ensures FirstMatch(ORDERED_MAPPINGS, InstanceOf(ORDERED_MAPPINGS[i].cls)) == Some(i)
    {
      var classes := InstanceOf(ORDERED_MAPPINGS[i].cls);
      assert FirstMatch(ORDERED_MAPPINGS, classes, i) == Some(i);
      forall j | 0 <= j < i ensures ORDERED_MAPPINGS[j].cls !in classes { }
      FirstMatchSkips(ORDERED_MAPPINGS, classes, 0, i);
    }
  }

  /** When no entry from i up to k matches, the search from i is the search from k. */
  lemma {:induction false} FirstMatchSkips(table: seq<Mapping>, classes: set<ErrorClass>, i: nat, k: nat)
    requires i <= k <= |table|
    requires forall j :: i <= j < k ==> table[j].cls !in classes
    ensures FirstMatch(table, classes, i) == FirstMatch(table, classes, k)
    decreases k - i
  {
    if i < k {
      FirstMatchSkips(table, classes, i + 1, k);
    }
  }
}
