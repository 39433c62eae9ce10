/**
  Timestamp selection and normalisation (`parse_conversation_times`): for each exported
  conversation record, take `created_at` or else `timestamp`, parse it as ISO 8601 (with
  every 'Z' read as "+00:00") or else as a Unix epoch, convert the instant to the target
  time zone, and keep the results in record order. Records without a usable value are
  skipped. The library calls (datetime, float, pytz) are the fields of a `Library` value:
  the model fixes the control flow around them, not their internals.
*/
module Timestamps {
  import opened Wrappers
  import opened Calendar

  /** A value decoded by json.load. */
  datatype Json =
    | JNull
    | JBool(b: bool)
    | JNum(n: real)
    | JStr(s: string)
    | JArr(items: seq<Json>)
    | JObj(fields: map<string, Json>)

  /** Python truthiness of a decoded value: None, False, 0, "", [] and {} are falsy. */
  predicate Truthy(v: Json) {
    match v
    case JNull => false
    case JBool(b) => b
    case JNum(n) => n != 0.0
    case JStr(s) => s != ""
    case JArr(items) => items != []
    case JObj(fields) => fields != map[]
  }

  /**
    The library calls that parse_conversation_times makes, as partial functions: None stands
    for a call that raises. I is the type of the parsed datetimes, Z that of pytz zones.
  */
  datatype Library<!I, !Z> = Library(
    fromIsoFormat: string -> Option<I>,   // datetime.fromisoformat
    parseFloat: string -> Option<real>,   // float() applied to a string
    fromTimestamp: real -> Option<I>,     // datetime.fromtimestamp(x, tz=timezone.utc)
    timezone: string -> Option<Z>,        // pytz.timezone
    astimezone: (I, Z) -> LocalDateTime   // datetime.astimezone
  )

  /** The error that escapes parse_conversation_times. */
  datatype Error =
    | NotAMapping              // a record without .get (not a JSON object)
    | UnknownTimeZone(name: string)

  /** dict.get(key): None when the key is missing. */
  function Get(fields: map<string, Json>, key: string): Json {
    if key in fields then fields[key] else JNull
  }

  /** conv.get('created_at') or conv.get('timestamp') */
  function TimestampValue(fields: map<string, Json>): (v: Json)
    ensures Truthy(v) <==> Truthy(Get(fields, "created_at")) || Truthy(Get(fields, "timestamp"))
    ensures Truthy(Get(fields, "created_at")) ==> v == fields["created_at"]
    ensures !Truthy(Get(fields, "created_at")) ==> v == Get(fields, "timestamp")
  {
    var createdAt := Get(fields, "created_at");
    if Truthy(createdAt) then createdAt else Get(fields, "timestamp")
  }

  /** What s.replace('Z', '+00:00') makes of one character. */
  function ReplacedChar(c: char): string {
    if c == 'Z' then "+00:00" else [c]
  }

  /** s.replace('Z', '+00:00'): every 'Z' of s becomes "+00:00". */
  function ReplaceZ(s: string): string {
    if s == [] then [] else ReplacedChar(s[0]) + ReplaceZ(s[1..])
  }

  /**
    The rewritten string holds no 'Z', a string without 'Z' is left as it is, and the
    rewrite never shortens a string.
  */
  lemma {:induction false} ReplaceZRemovesEveryZ(s: string)
    ensures 'Z' !in ReplaceZ(s)
    ensures 'Z' !in s ==> ReplaceZ(s) == s
    ensures |ReplaceZ(s)| >= |s|
  {
    if s != [] {
      ReplaceZRemovesEveryZ(s[1..]);
      assert s == [s[0]] + s[1..];
    }
  }

  /** The replacement works character by character, so it distributes over concatenation. */
  lemma {:induction false} ReplaceZAppend(a: string, b: string)
    ensures ReplaceZ(a + b) == ReplaceZ(a) + ReplaceZ(b)
  {
    if a == [] {
      assert a + b == b;
    } else {
      var c, ra, rb := ReplacedChar(a[0]), ReplaceZ(a[1..]), ReplaceZ(b);
      calc {
        ReplaceZ(a + b);
      ==  { assert (a + b)[0] == a[0] && (a + b)[1..] == a[1..] + b; }
        c + ReplaceZ(a[1..] + b);
      ==  { ReplaceZAppend(a[1..], b); }
        c + (ra + rb);
      ==  { assert c + (ra + rb) == (c + ra) + rb; }
        (c + ra) + rb;
      }
    }
  }

  /** datetime.fromisoformat(timestamp.replace('Z', '+00:00')); .replace raises on a non-string. */
  function IsoAttempt<I, Z>(lib: Library<I, Z>, v: Json): Option<I> {
    if v.JStr? then lib.fromIsoFormat(ReplaceZ(v.s)) else None
  }

  /** float(timestamp): numbers and booleans convert, strings are parsed, anything else raises. */
  function ToFloat<I, Z>(lib: Library<I, Z>, v: Json): Option<real> {
    match v
    case JNum(n) => Some(n)
    case JBool(b) => Some(if b then 1.0 else 0.0)
    case JStr(s) => lib.parseFloat(s)
    case _ => None
  }

  /** datetime.fromtimestamp(float(timestamp), tz=timezone.utc) */
  function EpochAttempt<I, Z>(lib: Library<I, Z>, v: Json): Option<I> {
    match ToFloat(lib, v)
    case None => None
    case Some(x) => lib.fromTimestamp(x)
  }

  /** A trailing 'Z' and an explicit "+00:00" offset reach the ISO parser as the same string. */
  lemma ZuluSameAsUtcOffset<I, Z>(lib: Library<I, Z>, prefix: string)
    ensures IsoAttempt(lib, JStr(prefix + "Z")) == IsoAttempt(lib, JStr(prefix + "+00:00"))
  {
    var zulu, offset := "Z", "+00:00";
    ReplaceZAppend(prefix, zulu);
    ReplaceZAppend(prefix, offset);
    assert zulu[1..] == [];
    assert ReplaceZ(zulu) == offset;
    assert 'Z' !in offset;
    ReplaceZRemovesEveryZ(offset);
  }

  /** The outcome of a chain of parse attempts, and how many of them were made. */
  datatype Parsed<T> = Parsed(instant: Option<T>, attempts: nat)

  /** Tries each parser in turn and stops at the first one that succeeds. */
  function FirstSuccess<T>(parsers: seq<Json -> Option<T>>, v: Json): (r: Parsed<T>)
    ensures r.attempts <= |parsers|
    ensures forall k :: 0 <= k < r.attempts - 1 ==> parsers[k](v).None?
    ensures r.instant.Some? ==> 1 <= r.attempts && r.instant == parsers[r.attempts - 1](v)
    ensures r.instant.None? ==> r.attempts == |parsers| && forall k :: 0 <= k < |parsers| ==> parsers[k](v).None?
  {
    if parsers == [] then Parsed(None, 0)
    else if parsers[0](v).Some? then Parsed(parsers[0](v), 1)
    else
      var rest := FirstSuccess(parsers[1..], v);
      Parsed(rest.instant, rest.attempts + 1)
  }

  /** The two parse strategies of parse_conversation_times, in the order it tries them. */
  function Strategies<I, Z>(lib: Library<I, Z>): seq<Json -> Option<I>> {
    [(v: Json) => IsoAttempt(lib, v), (v: Json) => EpochAttempt(lib, v)]
  }

  function ParseInstant<I, Z>(lib: Library<I, Z>, v: Json): Parsed<I> {
    FirstSuccess(Strategies(lib), v)
  }

  /**
    The epoch parse is attempted only when the ISO parse fails, and the first success is
    the one kept; when both fail there is no instant.
  */
  lemma IsoBeforeEpoch<I, Z>(lib: Library<I, Z>, v: Json)
    ensures ParseInstant(lib, v).attempts == if IsoAttempt(lib, v).Some? then 1 else 2
    ensures ParseInstant(lib, v).instant
            == if IsoAttempt(lib, v).Some? then IsoAttempt(lib, v) else EpochAttempt(lib, v)
  {
    var ps := Strategies(lib);
    assert ps[0](v) == IsoAttempt(lib, v);
    assert ps[1..][0](v) == EpochAttempt(lib, v);
    assert ps[1..][1..] == [];
  }

  /**
    What one iteration of the loop does with record conv: Success(Some(t)) appends t,
    Success(None) skips the record, Failure raises out of parse_conversation_times.
  */
  function RecordTime<I, Z>(conv: Json, tzName: string, lib: Library<I, Z>): (r: Result<Option<LocalDateTime>, Error>)
    ensures r == Failure(NotAMapping) <==> !conv.JObj?
    ensures conv.JObj? ==>
      var v := TimestampValue(conv.fields);
      && (r == Success(None) <==> !Truthy(v) || ParseInstant(lib, v).instant.None?)
      && (r == Failure(UnknownTimeZone(tzName)) <==>
            Truthy(v) && ParseInstant(lib, v).instant.Some? && lib.timezone(tzName).None?)
      && (r.Success? && r.value.Some? ==>
            Truthy(v) && ParseInstant(lib, v).instant.Some? && lib.timezone(tzName).Some?
            && r.value.value == lib.astimezone(ParseInstant(lib, v).instant.value, lib.timezone(tzName).value))
      && (Truthy(v) && ParseInstant(lib, v).instant.Some? && lib.timezone(tzName).Some? ==>
            r == Success(Some(lib.astimezone(ParseInstant(lib, v).instant.value, lib.timezone(tzName).value))))
  {
    if !conv.JObj? then Failure(NotAMapping)
    else
      var v := TimestampValue(conv.fields);
      if !Truthy(v) then Success(None)
      else
        match ParseInstant(lib, v).instant
        case None => Success(None)
        case Some(t) =>
          match lib.timezone(tzName)
          case None => Failure(UnknownTimeZone(tzName))
          case Some(zone) => Success(Some(lib.astimezone(t, zone)))
  }

  /** The list parse_conversation_times returns, or the error it raises. */
  function ConversationTimes<I, Z>(convs: seq<Json>, tzName: string, lib: Library<I, Z>): Result<seq<LocalDateTime>, Error>
  {
    if convs == [] then Success([])
    else
      match ConversationTimes(convs[..|convs| - 1], tzName, lib)
      case Failure(e) => Failure(e)
      case Success(times) =>
        match RecordTime(convs[|convs| - 1], tzName, lib)
        case Failure(e) => Failure(e)
        case Success(None) => Success(times)
        case Success(Some(t)) => Success(times + [t])
  }

  /** Once a record raises, the records after it change nothing. */
  lemma {:induction false} FailureIsFinal<I, Z>(convs: seq<Json>, n: nat, tzName: string, lib: Library<I, Z>)
    requires n <= |convs|
    requires ConversationTimes(convs[..n], tzName, lib).Failure?
    ensures ConversationTimes(convs, tzName, lib) == ConversationTimes(convs[..n], tzName, lib)
  {
    if n < |convs| {
      var init := convs[..|convs| - 1];
      assert init[..n] == convs[..n];
      FailureIsFinal(init, n, tzName, lib);
    } else {
      assert convs[..n] == convs;
    }
  }

  /** parse_conversation_times(conversations, timezone_name) */
  method ParseConversationTimes<I, Z>(convs: seq<Json>, tzName: string, lib: Library<I, Z>)
    returns (r: Result<seq<LocalDateTime>, Error>)
    ensures r == ConversationTimes(convs, tzName, lib)
  {
    var times: seq<LocalDateTime> := [];
    for i := 0 to |convs|
      invariant ConversationTimes(convs[..i], tzName, lib) == Success(times)
    {
      var conv := convs[i];
      assert convs[..i + 1][..i] == convs[..i];
      if !conv.JObj? {
        FailureIsFinal(convs, i + 1, tzName, lib);
        return Failure(NotAMapping);
      }
      var timestamp := TimestampValue(conv.fields);
      if Truthy(timestamp) {
        IsoBeforeEpoch(lib, timestamp);
        var parsed := IsoAttempt(lib, timestamp);
        if parsed.None? {
          parsed := EpochAttempt(lib, timestamp);
          if parsed.None? {
            continue;
          }
        }
        var zone := lib.timezone(tzName);
        if zone.None? {
          FailureIsFinal(convs, i + 1, tzName, lib);
          return Failure(UnknownTimeZone(tzName));
        }
        times := times + [lib.astimezone(parsed.value, zone.value)];
      }
    }
    assert convs[..|convs|] == convs;
    return Success(times);
  }

  /** Record conv adds a time to the result: it is handled without an exception and parses. */
  predicate Contributes<I, Z>(conv: Json, tzName: string, lib: Library<I, Z>) {
    var rt := RecordTime(conv, tzName, lib);
    rt.Success? && rt.value.Some?
  }

  /** Indices of the records that contribute a time, in increasing order. */
  ghost function Kept<I, Z>(convs: seq<Json>, tzName: string, lib: Library<I, Z>): (ks: seq<nat>)
    ensures forall k :: 0 <= k < |ks| ==> ks[k] < |convs|
    ensures forall k, l :: 0 <= k < l < |ks| ==> ks[k] < ks[l]
  {
    if convs == [] then []
    else
      var n := |convs| - 1;
      Kept(convs[..n], tzName, lib) + (if Contributes(convs[n], tzName, lib) then [n] else [])
  }

  /** The kept indices are exactly those of the records that contribute a time. */
  lemma {:induction false} KeptAreContributing<I, Z>(convs: seq<Json>, tzName: string, lib: Library<I, Z>)
    ensures forall i :: 0 <= i < |convs| ==> (i in Kept(convs, tzName, lib) <==> Contributes(convs[i], tzName, lib))
  {
    if convs != [] {
      var n := |convs| - 1;
      var init := convs[..n];
      KeptAreContributing(init, tzName, lib);
      assert forall i :: 0 <= i < n ==> init[i] == convs[i];
      assert n !in Kept(init, tzName, lib);
    }
  }

  /**
    When nothing raises, the result is the subsequence of contributed times: its k-th element
    is the converted time of the k-th kept record, so order follows the input and every other
    record (no truthy field, or both parses failed) contributes nothing.
  */
  lemma {:induction false} TimesFollowRecords<I, Z>(convs: seq<Json>, tzName: string, lib: Library<I, Z>)
    requires ConversationTimes(convs, tzName, lib).Success?
    ensures var times := ConversationTimes(convs, tzName, lib).value;
      var ks := Kept(convs, tzName, lib);
      && |times| == |ks| <= |convs|
      && forall k :: 0 <= k < |ks| ==> RecordTime(convs[ks[k]], tzName, lib) == Success(Some(times[k]))
  {
    KeptBound(convs, tzName, lib);
    if convs != [] {
      var n := |convs| - 1;
      var init := convs[..n];
      var rt := RecordTime(convs[n], tzName, lib);
      assert ConversationTimes(init, tzName, lib).Success?;
      assert Contributes(convs[n], tzName, lib) <==> rt.Success? && rt.value.Some?;
      TimesFollowRecords(init, tzName, lib);
      var times := ConversationTimes(convs, tzName, lib).value;
      var times0 := ConversationTimes(init, tzName, lib).value;
      var ks := Kept(convs, tzName, lib);
      var ks0 := Kept(init, tzName, lib);
      forall k | 0 <= k < |ks0| ensures convs[ks0[k]] == init[ks0[k]] { }
      if rt.Success? && rt.value.Some? {
        assert times == times0 + [rt.value.value] && ks == ks0 + [n];
      } else {
        assert times == times0 && ks == ks0;
      }
    }
  }

  /** Strictly increasing indices below n number at most n. */
  lemma {:induction false} KeptBound<I, Z>(convs: seq<Json>, tzName: string, lib: Library<I, Z>)
    ensures |Kept(convs, tzName, lib)| <= |convs|
  {
    if convs != [] {
      KeptBound(convs[..|convs| - 1], tzName, lib);
    }
  }

  /** A record that raises makes the whole call raise. */
  lemma {:induction false} RaisingRecordFails<I, Z>(convs: seq<Json>, tzName: string, lib: Library<I, Z>, i: int)
    requires 0 <= i < |convs| && RecordTime(convs[i], tzName, lib).Failure?
    ensures ConversationTimes(convs, tzName, lib).Failure?
  {
    var n := |convs| - 1;
    if i < n {
      var init := convs[..n];
      assert init[i] == convs[i];
      RaisingRecordFails(init, tzName, lib, i);
    }
  }

  /** When the call raises, it raises the error of the first record that raises. */
  lemma {:induction false} FailureFromFirstRaisingRecord<I, Z>(convs: seq<Json>, tzName: string, lib: Library<I, Z>)
    requires ConversationTimes(convs, tzName, lib).Failure?
    ensures exists i :: 0 <= i < |convs|
              && RecordTime(convs[i], tzName, lib) == Failure(ConversationTimes(convs, tzName, lib).error)
              && forall j :: 0 <= j < i ==> RecordTime(convs[j], tzName, lib).Success?
  {
    var n := |convs| - 1;
    var init := convs[..n];
    assert forall j :: 0 <= j < n ==> convs[j] == init[j];
    if ConversationTimes(init, tzName, lib).Failure? {
      FailureFromFirstRaisingRecord(init, tzName, lib);
      var i :| 0 <= i < n && RecordTime(init[i], tzName, lib) == Failure(ConversationTimes(init, tzName, lib).error)
               && forall j :: 0 <= j < i ==> RecordTime(init[j], tzName, lib).Success?;
      assert RecordTime(convs[i], tzName, lib) == Failure(ConversationTimes(convs, tzName, lib).error);
    } else {
      forall j | 0 <= j < n ensures RecordTime(convs[j], tzName, lib).Success? {
        if RecordTime(convs[j], tzName, lib).Failure? {
          RaisingRecordFails(init, tzName, lib, j);
        }
      }
    }
  }

  /**
    parse_conversation_times raises exactly when some record raises, and then with the error of
    the first such record; otherwise every record is handled without an exception.
  */
  lemma FailsAtFirstRaisingRecord<I, Z>(convs: seq<Json>, tzName: string, lib: Library<I, Z>)
    ensures ConversationTimes(convs, tzName, lib).Failure?
            <==> exists i :: 0 <= i < |convs| && RecordTime(convs[i], tzName, lib).Failure?
    ensures ConversationTimes(convs, tzName, lib).Failure? ==>
              exists i :: 0 <= i < |convs|
                && RecordTime(convs[i], tzName, lib) == Failure(ConversationTimes(convs, tzName, lib).error)
                && forall j :: 0 <= j < i ==> RecordTime(convs[j], tzName, lib).Success?
  {
    if ConversationTimes(convs, tzName, lib).Failure? {
      FailureFromFirstRaisingRecord(convs, tzName, lib);
    }
    if exists i :: 0 <= i < |convs| && RecordTime(convs[i], tzName, lib).Failure? {
      var i :| 0 <= i < |convs| && RecordTime(convs[i], tzName, lib).Failure?;
      RaisingRecordFails(convs, tzName, lib, i);
    }
  }

  /**
    The time zone is looked up only after a record parses: when no record yields an instant,
    an unknown zone name goes unnoticed and the result is empty.
  */
  lemma UnknownZoneNeedsAParsedRecord<I, Z>(convs: seq<Json>, tzName: string, lib: Library<I, Z>)
    requires forall i :: 0 <= i < |convs| ==> convs[i].JObj?
    requires forall i :: 0 <= i < |convs| ==>
               var v := TimestampValue(convs[i].fields);
               !Truthy(v) || ParseInstant(lib, v).instant.None?
    ensures ConversationTimes(convs, tzName, lib) == Success([])
  {
    FailsAtFirstRaisingRecord(convs, tzName, lib);
    TimesFollowRecords(convs, tzName, lib);
  }

  /** A record whose only field is a nonzero epoch number gives the UTC instant of that epoch. */
  lemma EpochNumberRecord<I, Z>(lib: Library<I, Z>, tzName: string, seconds: real)
    requires seconds != 0.0
    requires lib.timezone(tzName).Some?
    ensures RecordTime(JObj(map["timestamp" := JNum(seconds)]), tzName, lib)
            == match lib.fromTimestamp(seconds)
               case None => Success(None)
               case Some(t) => Success(Some(lib.astimezone(t, lib.timezone(tzName).value)))
  {
    IsoBeforeEpoch(lib, JNum(seconds));
  }
}
