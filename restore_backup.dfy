/**
 * The restore-backup Lambda run by the state machine
 * (functions/restore-backup): it takes the table name out of the backed-up
 * resource ARN, rewrites it with the configured source and replacement
 * patterns, appends a "-YYYYMMDD-HH-mm-ss" stamp of the backup's start
 * time, and asks DynamoDB to restore the recovery point under that name.
 */
module RestoreBackup {
  import opened Outcomes
  import opened GoStrings
  import opened GoTime
  import opened GoRegexp
  import opened BackupNotice
  import opened StartWorkflow

  /** The state machine's input as this Lambda reads it. */
  datatype RestoreInput = RestoreInput(
    backupSnsMessage: BackupSnsMessage,
    sourcePattern: string,
    replacementPattern: string)

  /** `dynamodb.RestoreTableFromBackupInput`, with the two fields the parser sets. */
  datatype RestoreRequest = RestoreRequest(backupArn: string, targetTableName: string)

  /** What the table name follows in a DynamoDB table ARN. */
  const TableSeparator: string := "table/"

  const BadArn: string := "Bad input ARN"

  /**
   * `parseInput`: an ARN without "table/" is refused before the source
   * pattern is even compiled; a pattern that does not compile is the
   * error; otherwise the target name is the rewritten table name followed
   * by the 18-character stamp, and the backup is the recovery point.
   */
  function ParseInput(input: RestoreInput, engine: Engine): (r: Outcome<RestoreRequest>)
    ensures !r.Panic?
    ensures !Contains(input.backupSnsMessage.backedUpResourceArn, TableSeparator) ==> r == Err(BadArn)
    ensures Contains(input.backupSnsMessage.backedUpResourceArn, TableSeparator) ==>
      && (r.Err? <==> engine.compileError(input.sourcePattern).Some?)
      && (r.Err? ==> r.error == engine.compileError(input.sourcePattern).value)
    ensures r.Ok? ==> r.value.backupArn == input.backupSnsMessage.recoveryPointArn
    ensures r.Ok? && Valid(input.backupSnsMessage.startTime) ==>
      var name := r.value.targetTableName;
      && |name| >= 18
      && name[|name| - 18..] == FormatStamp(input.backupSnsMessage.startTime)
  {
    var parts := SplitAfter(input.backupSnsMessage.backedUpResourceArn, TableSeparator);
    if |parts| < 2 then
      SplitsWithoutSeparator(input.backupSnsMessage.backedUpResourceArn);
      Err(BadArn)
    else
      SecondPieceNeedsSep(input.backupSnsMessage.backedUpResourceArn, TableSeparator, true, -1);
      ContainsIffOccurs(input.backupSnsMessage.backedUpResourceArn, TableSeparator);
      var tableName := parts[1];
      match engine.compileError(input.sourcePattern)
      case Some(msg) => Err(msg)
      case None =>
        var replacement := engine.replaceAll(input.sourcePattern, tableName, input.replacementPattern);
        var t := input.backupSnsMessage.startTime;
        var targetTable := replacement + FormatStamp(t);
        StampLength(t);
        Ok(RestoreRequest(input.backupSnsMessage.recoveryPointArn, targetTable))
  }

  lemma SplitsWithoutSeparator(arn: string)
    requires |SplitAfter(arn, TableSeparator)| < 2
    ensures !Contains(arn, TableSeparator)
  {
    if Contains(arn, TableSeparator) {
      SplitAt(arn, TableSeparator, true, -1, Index(arn, TableSeparator).value);
    }
  }

  lemma StampLength(t: DateTime)
    ensures Valid(t) ==> |FormatStamp(t)| == 18
  {
    if Valid(t) {
      StampLayout(t);
    }
  }

  /**
   * The table name `parseInput` rewrites is the text right after the
   * first "table/": up to and including the next "table/" when there is
   * one, and the whole rest of the ARN when there is none.
   */
  lemma TableNameIsSegment(arn: string, k: nat)
    requires Index(arn, TableSeparator) == Some(k)
    ensures |SplitAfter(arn, TableSeparator)| >= 2
    ensures var name := SplitAfter(arn, TableSeparator)[1];
      var start := k + |TableSeparator|;
      && start + |name| <= |arn|
      && name == arn[start..start + |name|]
      && (Occurs(arn[start..], TableSeparator) ==>
            |name| >= |TableSeparator| && Index(name, TableSeparator) == Some(|name| - |TableSeparator|))
      && (!Occurs(arn[start..], TableSeparator) ==> start + |name| == |arn|)
  {
    SecondPieceAt(arn, TableSeparator, k);
    SplitAt(arn, TableSeparator, true, -1, k);
    SecondPieceIsFirstOfRest(arn[k + |TableSeparator|..]);
  }

  /** The first piece of the rest of the ARN, cut after at most one more "table/". */
  lemma SecondPieceIsFirstOfRest(rest: string)
    ensures var name := GenSplit(rest, TableSeparator, true, -2)[0];
      && (Occurs(rest, TableSeparator) ==>
            |name| >= |TableSeparator| && Index(name, TableSeparator) == Some(|name| - |TableSeparator|))
      && (!Occurs(rest, TableSeparator) ==> name == rest)
  {
    ContainsIffOccurs(rest, TableSeparator);
    if Contains(rest, TableSeparator) {
      SplitAt(rest, TableSeparator, true, -2, Index(rest, TableSeparator).value);
      SplitAfterPiecesEndWithSep(rest, TableSeparator, -2, 0);
    } else {
      SplitWithoutSep(rest, TableSeparator, true, -2);
    }
  }

  /**
   * The target name is the source pattern's rewrite of the table name,
   * followed by the stamp of the start time: '-' and the date as
   * YYYYMMDD, then '-HH', '-mm' and '-ss', each field read in the time's
   * own offset.
   */
  lemma TargetNameLayout(input: RestoreInput, engine: Engine)
    requires Contains(input.backupSnsMessage.backedUpResourceArn, TableSeparator)
    requires engine.compileError(input.sourcePattern).None?
    requires Valid(input.backupSnsMessage.startTime)
    ensures ParseInput(input, engine).Ok?
    ensures |SplitAfter(input.backupSnsMessage.backedUpResourceArn, TableSeparator)| >= 2
    ensures var tableName := SplitAfter(input.backupSnsMessage.backedUpResourceArn, TableSeparator)[1];
      var replacement := engine.replaceAll(input.sourcePattern, tableName, input.replacementPattern);
      var name := ParseInput(input, engine).value.targetTableName;
      && |name| == |replacement| + 18
      && name[..|replacement|] == replacement
      && IsStampOf(name[|replacement|..], input.backupSnsMessage.startTime)
  {
    var arn := input.backupSnsMessage.backedUpResourceArn;
    SecondPieceAt(arn, TableSeparator, Index(arn, TableSeparator).value);
    var t := input.backupSnsMessage.startTime;
    StampLayout(t);
    var replacement := engine.replaceAll(input.sourcePattern, SplitAfter(arn, TableSeparator)[1], input.replacementPattern);
    var name := ParseInput(input, engine).value.targetTableName;
    assert name == replacement + FormatStamp(t);
    assert name[|replacement|..] == FormatStamp(t);
  }

  /**
   * The target name depends only on the resource ARN, the two patterns and
   * the start time: the rest of the notice does not affect it.
   */
  lemma TargetNameDeterministic(a: RestoreInput, b: RestoreInput, engine: Engine)
    requires a.backupSnsMessage.backedUpResourceArn == b.backupSnsMessage.backedUpResourceArn
    requires a.sourcePattern == b.sourcePattern && a.replacementPattern == b.replacementPattern
    requires a.backupSnsMessage.startTime == b.backupSnsMessage.startTime
    ensures ParseInput(a, engine).Ok? <==> ParseInput(b, engine).Ok?
    ensures ParseInput(a, engine).Ok? ==>
      ParseInput(a, engine).value.targetTableName == ParseInput(b, engine).value.targetTableName
  {
  }

  // ---------------------------------------------------------------------
  // A table "Orders" restored as "Orders-copy"
  // ---------------------------------------------------------------------

  /** The ARN of a table named "Orders" in the sample account. */
  const OrdersArn: string := SampleAccountPrefix + TableSeparator + "Orders"

  /** The table name taken out of the Orders ARN is "Orders". */
  lemma OrdersTableName()
    ensures SplitAfter(OrdersArn, TableSeparator) == [SampleAccountPrefix + TableSeparator, "Orders"]
  {
    var a := "arn:aws:dynamodb:" + SampleRegion + ":" + SampleAccount;
    assert a + ([':'] + TableSeparator + "Orders") == OrdersArn;
    assert a + [':'] == SampleAccountPrefix;
    assert '/' !in a && '/' !in "Orders";
    AbsentChar(a, TableSeparator, '/');
    AbsentChar("Orders", TableSeparator, '/');
    SplitAfterPrefixed(a, ':', TableSeparator, "Orders");
  }

  /**
   * "Orders" rewritten to "Orders-copy", backed up at 2021-03-04T05:06:07Z,
   * is restored as "Orders-copy-20210304-05-06-07", and the restore reads
   * the recovery point it was given.
   */
  lemma OrdersExample(input: RestoreInput, engine: Engine)
    requires input.backupSnsMessage.backedUpResourceArn == OrdersArn
    requires engine.compileError(input.sourcePattern).None?
    requires engine.replaceAll(input.sourcePattern, "Orders", input.replacementPattern) == "Orders-copy"
    requires input.backupSnsMessage.startTime == DateTime(2021, 3, 4, 5, 6, 7, 0, 0)
    ensures ParseInput(input, engine)
      == Ok(RestoreRequest(input.backupSnsMessage.recoveryPointArn,
                           "Orders-copy" + "-" + "2021" + "03" + "04" + "-" + "05" + "-" + "06" + "-" + "07"))
  {
    OrdersTableName();
    var stamp := FormatStamp(input.backupSnsMessage.startTime);
    OrdersStamp(input.backupSnsMessage.startTime);
    assert "Orders-copy" + stamp
      == "Orders-copy" + "-" + "2021" + "03" + "04" + "-" + "05" + "-" + "06" + "-" + "07";
  }

  /** 2021-03-04T05:06:07Z is stamped "-20210304-05-06-07". */
  lemma OrdersStamp(t: DateTime)
    requires t == DateTime(2021, 3, 4, 5, 6, 7, 0, 0)
    ensures FormatStamp(t) == "-" + "2021" + "03" + "04" + "-" + "05" + "-" + "06" + "-" + "07"
  {
    SampleFields();
    StampOfFields(t, "2021", "03", "04", "05", "06", "07");
  }

  /** An ARN without "table/" is refused whatever the patterns and whatever the engine. */
  lemma BadArnIgnoresPatterns(input: RestoreInput, e1: Engine, e2: Engine)
    requires !Contains(input.backupSnsMessage.backedUpResourceArn, TableSeparator)
    ensures ParseInput(input, e1) == ParseInput(input, e2) == Err(BadArn)
  {
  }
}
