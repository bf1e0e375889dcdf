/**
 * The older restore-backup Lambda (src/restore-backup): it cuts the same
 * four fields out of the first SNS record's notice, with none of the
 * length guards, and asks DynamoDB to restore the recovery point into a
 * table of fixed name. Its only error path is DynamoDB's own, which is
 * not modelled; every malformed notice ends in a panic.
 */
module LegacyRestore {
  import opened Outcomes
  import opened GoStrings
  import opened BackupNotice
  import opened StartWorkflow
  import opened NoticeParsing

  /** `SnsMessage`, reduced to the one field the parser reads. */
  datatype SnsMessage = SnsMessage(message: string)

  datatype SnsRecord = SnsRecord(snsMessage: SnsMessage)

  /** The Lambda's input: a collection of SNS records. */
  datatype Input = Input(records: seq<SnsRecord>)

  /** `dynamodb.RestoreTableFromBackupInput`, with the two fields the parser sets. */
  datatype RestoreRequest = RestoreRequest(backupArn: string, targetTableName: string)

  /** The fixed name of the table every backup is restored into ("MyRestoredDynamoDBTable", written in two pieces to keep proofs fast). */
  const RestoredTableName: string := "MyRestored" + "DynamoDBTable"

  /**
   * `parseSnsInput`: the same splits as the start-workflow parser, each
   * indexed without a length check, so a missing marker or '.' panics at
   * the first `[1]` that finds a one-piece split. It never returns an
   * error, it agrees with the start-workflow parser on which notices
   * panic and why, and the backup it restores is that parser's recovery
   * point ARN.
   */
  function ParseSnsInput(input: Input): (r: Outcome<RestoreRequest>)
    ensures !r.Err?
    ensures |input.records| == 0 ==> r == Panic(NoRecords)
    ensures r.Ok? ==> r.value.targetTableName == RestoredTableName
    ensures |input.records| > 0 ==>
      var fields := ExtractFields(input.records[0].snsMessage.message);
      && (fields.Panic? <==> r.Panic?)
      && (fields.Panic? ==> r.cause == fields.cause)
      && (fields.Ok? ==> r.Ok? && r.value.backupArn == fields.value.recoveryPointArn)
  {
    if |input.records| == 0 then Panic(NoRecords)
    else
      var snsMessage := input.records[0].snsMessage.message;
      var firstSplitString := SplitAfter(snsMessage, RecoveryPointMarker);
      var statusMessage := SplitAfter(firstSplitString[0], ".")[0];
      if |firstSplitString| < 2 then Panic(IndexOutOfRange("firstSplitString"))
      else
        var secondSplitString := SplitAfterN(firstSplitString[1], ".", 2);
        var recoveryPointArn := Split(secondSplitString[0], ".")[0];
        if |secondSplitString| < 2 then Panic(IndexOutOfRange("secondSplitString"))
        else
          var thirdSplitString := SplitAfter(secondSplitString[1], ResourceMarker);
          if |thirdSplitString| < 2 then Panic(IndexOutOfRange("thirdSplitString"))
          else
            var tmpString := SplitN(thirdSplitString[1], ".", 2);
            var backedUpResourceArn := tmpString[0];
            if |tmpString| < 2 then Panic(IndexOutOfRange("tmpString"))
            else
              var fourthSplitString := SplitAfter(tmpString[1], JobIdMarker);
              if |fourthSplitString| < 2 then Panic(IndexOutOfRange("fourthSplitString"))
              else
                var notice := NoticeFields(statusMessage, recoveryPointArn, backedUpResourceArn, fourthSplitString[1]);
                Ok(RestoreRequest(notice.recoveryPointArn, RestoredTableName))
  }

  /** The restored backup is an infix of the notice with no '.' in it. */
  lemma BackupArnIsDotFreeInfix(input: Input)
    requires ParseSnsInput(input).Ok?
    ensures var m := input.records[0].snsMessage.message;
      var arn := ParseSnsInput(input).value.backupArn;
      '.' !in arn && Occurs(m, arn)
  {
    ExtractedFieldsAreInfixes(input.records[0].snsMessage.message);
  }

  /** A notice without the recovery point marker panics at the first split. */
  lemma NoRecoveryMarkerPanics(input: Input)
    requires |input.records| > 0
    requires !Contains(input.records[0].snsMessage.message, RecoveryPointMarker)
    ensures ParseSnsInput(input) == Panic(IndexOutOfRange("firstSplitString"))
  {
    NoticeParsing.NoRecoveryMarkerPanics(input.records[0].snsMessage.message);
  }

  /** A notice without the resource or job id marker panics. */
  lemma MissingLaterMarkerPanics(input: Input)
    requires |input.records| > 0
    requires var m := input.records[0].snsMessage.message;
      !Occurs(m, ResourceMarker) || !Occurs(m, JobIdMarker)
    ensures ParseSnsInput(input).Panic?
  {
    var m := input.records[0].snsMessage.message;
    if !Occurs(m, ResourceMarker) {
      NoResourceMarkerPanics(m);
    } else {
      NoJobIdMarkerPanics(m);
    }
  }

  /** The sample notice restores its recovery point into the fixed table. */
  lemma SampleBackupArn()
    ensures ParseSnsInput(Input([SnsRecord(SnsMessage(Format(Sample())))]))
      == Ok(RestoreRequest(SampleRecoveryPointArn, RestoredTableName))
  {
    SampleIsRead();
  }
}
