/**
 * The frame validator: a fixed chain of guards over the outcome of
 * `JSON.parse`, every failure caught and turned into a rejection.
 */
module Validation {
  import opened Js
  import opened Types

  const MissingTypeOrPayload := "Missing type or payload"
  const TypeNotCorrect := "Type is not correct"
  const RoomNotString := "Room is not present or is not of string"
  const MessageNotString := "Payload message is not of correct type"
  const NoErrors := "No errors"
  const InvalidJsonFormat := "Invalid JSON format"

  function Reject(errMsg: string): ValidationResult {
    ValidationResult(false, errMsg, None)
  }

  /**
   * `MessageValidation`: the parse outcome is given, so a parse failure
   * arrives as what `JSON.parse` threw. Reading `type` off a parsed `null`
   * throws a `TypeError`; both are caught and become the rejection reason.
   */
  function Validate(input: ParseOutcome, engine: Engine): (r: ValidationResult)
    ensures r.isValid <==> r.message.Some?
    ensures r.isValid ==> input.Parsed? && r.errMsg == NoErrors
    ensures input.ParseFail? ==> r == Reject(CaughtText(input.thrown, InvalidJsonFormat))
    ensures input == Parsed(JNull) ==> r == Reject(engine.typeErrorText(TypeOfNull))
  {
    match input
    case ParseFail(thrown) => Reject(CaughtText(thrown, InvalidJsonFormat))
    case Parsed(v) =>
      if v.JNull? then Reject(CaughtText(JsError(engine.typeErrorText(TypeOfNull)), InvalidJsonFormat))
      else Check(v)
  }

  /** The guards, in source order, over a parsed value that is not `null`. */
  function Check(v: Json): ValidationResult
    requires !v.JNull?
  {
    if !Truthy(Get(v, "type")) || !Truthy(Get(v, "payload")) then Reject(MissingTypeOrPayload)
    else match TagOf(Get(v, "type"))
      case None => Reject(TypeNotCorrect)
      case Some(tag) =>
        var payload := Get(v, "payload").value;
        var roomId := Get(payload, "roomId");
        if !Truthy(roomId) || !roomId.value.JStr? then Reject(RoomNotString)
        else if tag == Chat && (!Truthy(Get(payload, "message")) || !Get(payload, "message").value.JStr?) then
          Reject(MessageNotString)
        else
          ValidationResult(true, NoErrors,
                           Some(Message(tag, Payload(roomId.value.s, Get(payload, "message"), Get(payload, "senderName")))))
  }

  /** A frame the gateway accepts, stated directly on the shape of the parsed value. */
  predicate Acceptable(v: Json) {
    && v.JObj?
    && (exists tag :: Get(v, "type") == Val(JStr(TagName(tag))))
    && Get(v, "payload").Val? && Get(v, "payload").value.JObj?
    && NonEmptyString(Get(Get(v, "payload").value, "roomId"))
    && (Get(v, "type") == Val(JStr("chat")) ==> NonEmptyString(Get(Get(v, "payload").value, "message")))
  }

  /**
   * The validator accepts exactly the acceptable frames, and the command it
   * returns is read off the parsed value unchanged: its tag is the `type`
   * string, its fields are the payload's `roomId`, `message` and `senderName`.
   */
  lemma ValidateAcceptsExactly(v: Json, engine: Engine)
    ensures Validate(Parsed(v), engine).isValid <==> Acceptable(v)
    ensures Acceptable(v) ==>
      var m := Validate(Parsed(v), engine).message.value;
      var payload := Get(v, "payload").value;
      && Get(v, "type") == Val(JStr(TagName(m.kind)))
      && Val(JStr(m.payload.roomId)) == Get(payload, "roomId")
      && m.payload.roomId != ""
      && m.payload.message == Get(payload, "message")
      && m.payload.senderName == Get(payload, "senderName")
  {
    if Acceptable(v) {
      var tag :| Get(v, "type") == Val(JStr(TagName(tag)));
      assert TagOf(Get(v, "type")) == Some(tag);
    }
  }

  /**
   * The guards run in order and the first one that fails names the
   * reason; each reason is reached exactly when every earlier guard passed
   * and its own guard failed.
   */
  lemma FirstFailingGuardDecides(v: Json, engine: Engine)
    requires !v.JNull?
    ensures var r := Validate(Parsed(v), engine);
      var ty := Get(v, "type");
      var shaped := Truthy(ty) && Truthy(Get(v, "payload"));
      var tagged := shaped && TagOf(ty).Some?;
      var roomed := tagged && NonEmptyString(Get(Get(v, "payload").value, "roomId"));
      && (r.errMsg == MissingTypeOrPayload <==> !shaped)
      && (r.errMsg == TypeNotCorrect <==> shaped && !tagged)
      && (r.errMsg == RoomNotString <==> tagged && !roomed)
      && (r.errMsg == MessageNotString <==>
            roomed && TagOf(ty) == Some(Chat) && !NonEmptyString(Get(Get(v, "payload").value, "message")))
      && (r.isValid <==> roomed && (TagOf(ty) == Some(Chat) ==> NonEmptyString(Get(Get(v, "payload").value, "message"))))
  {
    if Truthy(Get(v, "type")) && Truthy(Get(v, "payload")) {
      var payload := Get(v, "payload").value;
      TruthyStringIsNonEmpty(Get(payload, "roomId"));
      TruthyStringIsNonEmpty(Get(payload, "message"));
    }
  }

  /** A rejection of a parsed, non-null value always gives one of the four fixed, non-empty reasons. */
  lemma RejectionReasonIsFixed(v: Json, engine: Engine)
    requires !v.JNull?
    ensures var r := Validate(Parsed(v), engine);
      !r.isValid ==> r.errMsg in {MissingTypeOrPayload, TypeNotCorrect, RoomNotString, MessageNotString}
  {
  }

  /** Falsy values such as `""`, `0`, `false` and `null` count as a missing `type` or `payload`. */
  lemma FalsyTypeIsMissing(t: Json, payload: Json, engine: Engine)
    requires t in {JStr(""), JNum(0.0), JBool(false), JNull}
    ensures Validate(Parsed(JObj(map["type" := t, "payload" := payload])), engine) == Reject(MissingTypeOrPayload)
  {
    var v := JObj(map["type" := t, "payload" := payload]);
    assert Get(v, "type") == Val(t);
  }

  /** Only `chat` checks `message`, and no type checks `senderName`: any value passes through. */
  lemma SenderNameIsNeverChecked(tag: Tag, room: string, sender: Json, engine: Engine)
    requires room != "" && tag != Chat
    ensures var payload := JObj(map["roomId" := JStr(room), "senderName" := sender]);
      var r := Validate(Parsed(JObj(map["type" := JStr(TagName(tag)), "payload" := payload])), engine);
      r.isValid && r.message.value == Message(tag, Payload(room, Undefined, Val(sender)))
  {
    var payload := JObj(map["roomId" := JStr(room), "senderName" := sender]);
    var v := JObj(map["type" := JStr(TagName(tag)), "payload" := payload]);
    assert Get(v, "type") == Val(JStr(TagName(tag)));
    assert TagOf(Get(v, "type")) == Some(tag);
    assert Get(v, "payload") == Val(payload);
    assert Get(payload, "roomId") == Val(JStr(room));
    assert Get(payload, "message") == Undefined;
    assert Get(payload, "senderName") == Val(sender);
  }
}
