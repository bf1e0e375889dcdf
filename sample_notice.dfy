/**
 * The sample notice of src/start-workflow/main.go carried through the
 * whole handler: it is read as its fields, its resource is a DynamoDB
 * table, and what happens next depends only on the source pattern.
 */
module SampleNotice {
  import opened Outcomes
  import opened GoStrings
  import opened GoTime
  import opened GoRegexp
  import opened TableArn
  import opened BackupNotice
  import opened StartWorkflow
  import opened NoticeParsing

  /** The sample resource ARN has the shape of a DynamoDB table ARN. */
  lemma SampleResourceIsTable()
    ensures IsDynamoTableArn(SampleResourceArn) && MatchesShape(SampleResourceArn)
  {
    assert FoldedAt(Prefix, Prefix, 0);
    assert FoldedAt(TableWord, TableWord, 0);
    assert '\n' !in SampleRegion && '\n' !in SampleAccount;
    assert SampleResourceArn == Prefix + SampleRegion + ":" + SampleAccount + ":" + TableWord + "MyDynamoDBTable";
    AcceptsTableArn(Prefix, SampleRegion, SampleAccount, TableWord, "MyDynamoDBTable");
    IsDynamoTableArnIff(SampleResourceArn);
  }

  /** An event whose one record carries the sample notice and the given StartTime value. */
  function SampleEvent(startTime: string): SnsEvent {
    SnsEvent([SnsEventRecord(SnsEntity(Format(Sample()),
      map["StartTime" := AttrObject(map["Value" := AttrString(startTime)])]))])
  }

  /** The message the handler parses out of the sample event. */
  function SampleMessage(t: DateTime): BackupSnsMessage {
    BackupSnsMessage(SuccessSentence, SampleRecoveryPointArn, SampleResourceArn, SampleJobId, t)
  }

  /** The sample event is parsed into the sample fields and the parsed StartTime. */
  lemma SampleEventIsParsed(startTime: string, t: DateTime, parseTime: string -> Option<DateTime>)
    requires parseTime(startTime) == Some(t)
    ensures ParseSnsInput(SampleEvent(startTime), parseTime) == Ok(SampleMessage(t))
  {
    SampleIsRead();
  }

  /** When the source pattern compiles and matches the sample table, the restore workflow starts. */
  lemma SampleStartsRestore(startTime: string, t: DateTime, env: Env, engine: Engine, parseTime: string -> Option<DateTime>)
    requires parseTime(startTime) == Some(t)
    requires engine.compileError(env.sourcePattern).None?
    requires engine.matches(env.sourcePattern, SampleResourceArn)
    ensures Handler(SampleEvent(startTime), env, engine, parseTime)
      == StartExecution(env.stateMachineArn,
           StepFunctionInput(SampleMessage(t), env.sourcePattern, env.replacementPattern, env.ssmParameterName))
  {
    SampleEventIsParsed(startTime, t, parseTime);
    SampleResourceIsTable();
    assert OccursAt(SuccessSentence, SuccessSentence, 0);
  }

  /** When the source pattern compiles but does not match the sample table, nothing starts. */
  lemma SampleUnmatchedStartsNothing(startTime: string, t: DateTime, env: Env, engine: Engine, parseTime: string -> Option<DateTime>)
    requires parseTime(startTime) == Some(t)
    requires engine.compileError(env.sourcePattern).None?
    requires !engine.matches(env.sourcePattern, SampleResourceArn)
    ensures Handler(SampleEvent(startTime), env, engine, parseTime) == NoRestore
  {
    SampleEventIsParsed(startTime, t, parseTime);
    SampleResourceIsTable();
    assert OccursAt(SuccessSentence, SuccessSentence, 0);
  }

  /** A source pattern that does not compile is the handler's error. */
  lemma SampleBadPatternFails(startTime: string, t: DateTime, env: Env, engine: Engine, parseTime: string -> Option<DateTime>)
    requires parseTime(startTime) == Some(t)
    requires engine.compileError(env.sourcePattern).Some?
    ensures Handler(SampleEvent(startTime), env, engine, parseTime) == Fail(engine.compileError(env.sourcePattern).value)
  {
    SampleEventIsParsed(startTime, t, parseTime);
    SampleResourceIsTable();
    assert OccursAt(SuccessSentence, SuccessSentence, 0);
  }
}
