/**
 * The start-workflow Lambda: it parses the AWS Backup SNS notice, decides
 * whether the finished job backed up a DynamoDB table that the configured
 * source pattern selects, and if so asks Step Functions to start the
 * restore workflow.
 *
 * Environment variables arrive as an `Env` value, the regular-expression
 * engine as a `GoRegexp.Engine`, and RFC 3339 parsing as a function from
 * text to an optional `DateTime`. Logging, the JSON encoding of the
 * workflow input and the Step Functions call itself are not modelled: the
 * handler's decision is returned as a `Dispatch` value.
 */
module StartWorkflow {
  import opened Outcomes
  import opened GoStrings
  import opened GoTime
  import opened GoRegexp
  import opened TableArn
  import opened BackupNotice

  /** A decoded JSON value of an SNS message attribute (`interface{}` in Go). */
  datatype AttrValue =
    | AttrObject(fields: map<string, AttrValue>)
    | AttrString(text: string)
    | AttrOther

  /** `events.SNSEntity`, reduced to the two fields the handler reads. */
  datatype SnsEntity = SnsEntity(message: string, messageAttributes: map<string, AttrValue>)

  datatype SnsEventRecord = SnsEventRecord(sns: SnsEntity)

  /** `events.SNSEvent`: the handler's input. */
  datatype SnsEvent = SnsEvent(records: seq<SnsEventRecord>)

  /** The parsed notice (Go's `BackupSnsMessage`). */
  datatype BackupSnsMessage = BackupSnsMessage(
    statusMessage: string,
    recoveryPointArn: string,
    backedUpResourceArn: string,
    backupJobId: string,
    startTime: DateTime)

  /** The input handed to the restore workflow. */
  datatype StepFunctionInput = StepFunctionInput(
    backupSnsMessage: BackupSnsMessage,
    sourcePattern: string,
    replacementPattern: string,
    ssmParameterName: string)

  /** SOURCE_PATTERN, REPLACEMENT_PATTERN, STATE_MACHINE_ARN and SSM_PARAMETER_NAME. */
  datatype Env = Env(
    sourcePattern: string,
    replacementPattern: string,
    stateMachineArn: string,
    ssmParameterName: string)

  /** How the handler ends: an error, a panic, nothing to do, or a workflow to start. */
  datatype Dispatch =
    | Fail(error: string)
    | Crash(cause: PanicCause)
    | NoRestore
    | StartExecution(stateMachineArn: string, input: StepFunctionInput)

  /**
   * Steps 1-4 of `parseSnsInput`: the four text fields cut out of the
   * notice by splitting on its markers and on '.'. The `len(...) == 0`
   * guards are kept as written; every `[1]` on a one-piece split is a
   * panic naming the slice.
   */
  function ExtractFields(message: string): (r: Outcome<NoticeFields>)
    ensures !r.Err?
    ensures r.Panic? ==> r.cause.IndexOutOfRange?
    ensures r.Panic? ==> (r.cause.slice in
      {"firstSplitString", "secondSplitString", "thirdSplitString", "tmpString", "fourthSplitString"})
  {
    var firstSplitString := SplitAfter(message, RecoveryPointMarker);
    if |firstSplitString| == 0 then Err("parse failure: StatusMessage")
    else
      var statusMessage := SplitAfter(firstSplitString[0], ".")[0];
      if |firstSplitString| < 2 then Panic(IndexOutOfRange("firstSplitString"))
      else
        var secondSplitString := SplitAfterN(firstSplitString[1], ".", 2);
        if |secondSplitString| == 0 then Err("parse failure: RecoveryPointArn")
        else
          var recoveryPointArn := Split(secondSplitString[0], ".")[0];
          if |secondSplitString| < 2 then Panic(IndexOutOfRange("secondSplitString"))
          else
            var thirdSplitString := SplitAfter(secondSplitString[1], ResourceMarker);
            if |thirdSplitString| == 0 then Err("parse failure: BackedUpResourceArn")
            else if |thirdSplitString| < 2 then Panic(IndexOutOfRange("thirdSplitString"))
            else
              var tmpString := SplitN(thirdSplitString[1], ".", 2);
              if |tmpString| == 0 then Err("parse failure: BackedUpResourceArn")
              else
                var backedUpResourceArn := tmpString[0];
                if |tmpString| < 2 then Panic(IndexOutOfRange("tmpString"))
                else
                  var fourthSplitString := SplitAfter(tmpString[1], JobIdMarker);
                  if |fourthSplitString| == 0 then Err("parse failure: BackupJobID")
                  else if |fourthSplitString| < 2 then Panic(IndexOutOfRange("fourthSplitString"))
                  else Ok(NoticeFields(statusMessage, recoveryPointArn, backedUpResourceArn, fourthSplitString[1]))
  }

  /**
   * `MessageAttributes["StartTime"].(map[string]interface{})["Value"].(string)`:
   * each type assertion panics when the entry is missing or of another type.
   */
  function StartTimeValue(attributes: map<string, AttrValue>): (r: Outcome<string>)
    ensures !r.Err?
    ensures r.Ok? <==>
      "StartTime" in attributes && attributes["StartTime"].AttrObject?
      && "Value" in attributes["StartTime"].fields && attributes["StartTime"].fields["Value"].AttrString?
    ensures r.Ok? ==> r.value == attributes["StartTime"].fields["Value"].text
  {
    if "StartTime" !in attributes || !attributes["StartTime"].AttrObject? then
      Panic(BadTypeAssertion("StartTime"))
    else
      var attribute := attributes["StartTime"].fields;
      if "Value" !in attribute || !attribute["Value"].AttrString? then Panic(BadTypeAssertion("Value"))
      else Ok(attribute["Value"].text)
  }

  /**
   * `parseSnsInput`: the notice of the first record, then its StartTime
   * attribute read through `parseTime` (Go's `time.Parse(time.RFC3339, …)`).
   */
  function ParseSnsInput(input: SnsEvent, parseTime: string -> Option<DateTime>): (r: Outcome<BackupSnsMessage>)
    ensures |input.records| == 0 ==> r == Panic(NoRecords)
    ensures r.Err? ==> r.error == "parse failure: StartTime"
    ensures r.Ok? ==>
      && |input.records| > 0
      && ExtractFields(input.records[0].sns.message) == Ok(NoticeFields(
           r.value.statusMessage, r.value.recoveryPointArn, r.value.backedUpResourceArn, r.value.backupJobId))
      && StartTimeValue(input.records[0].sns.messageAttributes).Ok?
      && parseTime(StartTimeValue(input.records[0].sns.messageAttributes).value) == Some(r.value.startTime)
    ensures |input.records| > 0 && ExtractFields(input.records[0].sns.message).Panic? ==>
      r == Panic(ExtractFields(input.records[0].sns.message).cause)
    ensures
      && |input.records| > 0
      && ExtractFields(input.records[0].sns.message).Ok?
      && StartTimeValue(input.records[0].sns.messageAttributes).Panic?
      ==> r == Panic(StartTimeValue(input.records[0].sns.messageAttributes).cause)
    ensures
      && |input.records| > 0
      && ExtractFields(input.records[0].sns.message).Ok?
      && StartTimeValue(input.records[0].sns.messageAttributes).Ok?
      && parseTime(StartTimeValue(input.records[0].sns.messageAttributes).value).Some?
      ==> r.Ok?
  {
    if |input.records| == 0 then Panic(NoRecords)
    else
      var record := input.records[0];
      match ExtractFields(record.sns.message)
      case Panic(cause) => Panic(cause)
      case Err(error) => Err(error)
      case Ok(f) =>
        match StartTimeValue(record.sns.messageAttributes)
        case Panic(cause) => Panic(cause)
        case Err(error) => Err(error)
        case Ok(snapshotTime) =>
          match parseTime(snapshotTime)
          case None => Err("parse failure: StartTime")
          case Some(startTime) =>
            Ok(BackupSnsMessage(f.statusMessage, f.recoveryPointArn, f.backedUpResourceArn, f.backupJobId, startTime))
  }

  /**
   * `isMatchingJob`: the notice reports a completed job, the resource is a
   * DynamoDB table, and the source pattern matches the resource ARN. The
   * fixed table pattern always compiles, so its error branch is not taken.
   */
  function IsMatchingJob(message: BackupSnsMessage, matchString: string, engine: Engine): (r: Outcome<bool>)
    ensures !r.Panic?
    ensures !Contains(message.statusMessage, SuccessSentence) ==> r == Ok(false)
    ensures !MatchesShape(message.backedUpResourceArn) ==> r == Ok(false)
    ensures r.Err? ==> engine.compileError(matchString) == Some(r.error)
    ensures r == Ok(true) <==>
      && Occurs(message.statusMessage, SuccessSentence)
      && MatchesShape(message.backedUpResourceArn)
      && engine.compileError(matchString).None?
      && engine.matches(matchString, message.backedUpResourceArn)
    ensures Occurs(message.statusMessage, SuccessSentence) && MatchesShape(message.backedUpResourceArn) ==>
      match engine.compileError(matchString)
      case Some(msg) => r == Err(msg)
      case None => r == Ok(engine.matches(matchString, message.backedUpResourceArn))
  {
    ContainsIffOccurs(message.statusMessage, SuccessSentence);
    IsDynamoTableArnIff(message.backedUpResourceArn);
    if !Contains(message.statusMessage, SuccessSentence) then Ok(false)
    else if !IsDynamoTableArn(message.backedUpResourceArn) then Ok(false)
    else MatchString(engine, matchString, message.backedUpResourceArn)
  }

  /**
   * The branches of `handler`: a parse or match error is returned as it
   * is, a job that does not match starts nothing, and a matching one
   * starts the state machine with the parsed notice and the configured
   * patterns and parameter name.
   */
  function Handler(input: SnsEvent, env: Env, engine: Engine, parseTime: string -> Option<DateTime>): (r: Dispatch)
    ensures r.Crash? <==> ParseSnsInput(input, parseTime).Panic?
    ensures ParseSnsInput(input, parseTime).Panic? ==> r == Crash(ParseSnsInput(input, parseTime).cause)
    ensures ParseSnsInput(input, parseTime).Err? ==> r == Fail(ParseSnsInput(input, parseTime).error)
    ensures r == NoRestore <==>
      ParseSnsInput(input, parseTime).Ok? && IsMatchingJob(ParseSnsInput(input, parseTime).value, env.sourcePattern, engine) == Ok(false)
    ensures ParseSnsInput(input, parseTime).Ok? && IsMatchingJob(ParseSnsInput(input, parseTime).value, env.sourcePattern, engine).Err? ==>
      r == Fail(IsMatchingJob(ParseSnsInput(input, parseTime).value, env.sourcePattern, engine).error)
    ensures ParseSnsInput(input, parseTime).Ok? && IsMatchingJob(ParseSnsInput(input, parseTime).value, env.sourcePattern, engine) == Ok(true) ==>
      r == StartExecution(env.stateMachineArn, StepFunctionInput(
        ParseSnsInput(input, parseTime).value, env.sourcePattern, env.replacementPattern, env.ssmParameterName))
    ensures r.Fail? ==>
      r.error == "parse failure: StartTime" || engine.compileError(env.sourcePattern) == Some(r.error)
    ensures r.StartExecution? ==>
      && Occurs(r.input.backupSnsMessage.statusMessage, SuccessSentence)
      && MatchesShape(r.input.backupSnsMessage.backedUpResourceArn)
      && engine.matches(env.sourcePattern, r.input.backupSnsMessage.backedUpResourceArn)
    ensures r.StartExecution? ==>
      && ParseSnsInput(input, parseTime) == Ok(r.input.backupSnsMessage)
      && IsMatchingJob(r.input.backupSnsMessage, env.sourcePattern, engine) == Ok(true)
      && r.stateMachineArn == env.stateMachineArn
      && r.input.sourcePattern == env.sourcePattern
      && r.input.replacementPattern == env.replacementPattern
      && r.input.ssmParameterName == env.ssmParameterName
  {
    match ParseSnsInput(input, parseTime)
    case Panic(cause) => Crash(cause)
    case Err(error) => Fail(error)
    case Ok(message) =>
      match IsMatchingJob(message, env.sourcePattern, engine)
      case Panic(cause) => Crash(cause)
      case Err(error) => Fail(error)
      case Ok(match') =>
        if !match' then NoRestore
        else
          StartExecution(env.stateMachineArn,
            StepFunctionInput(message, env.sourcePattern, env.replacementPattern, env.ssmParameterName))
  }

  /** Only the first record is read: events that agree on it are parsed alike. */
  lemma ParseReadsFirstRecordOnly(a: SnsEvent, b: SnsEvent, parseTime: string -> Option<DateTime>)
    requires |a.records| > 0 && |b.records| > 0 && a.records[0] == b.records[0]
    ensures ParseSnsInput(a, parseTime) == ParseSnsInput(b, parseTime)
  {
  }

  /** A StartTime that RFC 3339 parsing rejects is the parser's one error. */
  lemma RejectedStartTimeIsError(input: SnsEvent, parseTime: string -> Option<DateTime>)
    requires |input.records| > 0
    requires ExtractFields(input.records[0].sns.message).Ok?
    requires StartTimeValue(input.records[0].sns.messageAttributes).Ok?
    requires parseTime(StartTimeValue(input.records[0].sns.messageAttributes).value).None?
    ensures ParseSnsInput(input, parseTime) == Err("parse failure: StartTime")
  {
  }
}
