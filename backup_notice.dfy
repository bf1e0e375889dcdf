/**
 * The text of the SNS notice AWS Backup publishes when a backup job ends,
 * as both parsers expect it:
 *
 *   <status> Recovery point ARN: <rp>. Backed up Resource ARN : <res>. Backup Job Id : <job>
 *
 * and the conditions under which splitting it on its markers gives back
 * exactly the four fields.
 */
module BackupNotice {
  import opened GoStrings

  // Some literals below are written as concatenations of shorter ones;
  // the value is the same, and the solver handles the pieces faster.
  const RecoveryPointMarker: string := "Recovery point ARN: "
  const ResourceMarker: string := "Backed up Resource " + "ARN : "
  const JobIdMarker: string := "Backup Job Id : "

  /** "An AWS Backup job was completed successfully.", the sentence that marks a completed job. */
  const SuccessSentence: string := SuccessWords + "."
  const SuccessWords: string := "An AWS Backup job " + "was completed " + "successfully"

  /** The four text fields of a notice, as the parsers name them. */
  datatype NoticeFields = NoticeFields(
    statusMessage: string,
    recoveryPointArn: string,
    backedUpResourceArn: string,
    backupJobId: string)

  /** " Backup Job Id : <job>": the end of a notice. */
  function JobPart(f: NoticeFields): string {
    " " + JobIdMarker + f.backupJobId
  }

  /** " Backed up Resource ARN : <res>." followed by the job part. */
  function ResourcePart(f: NoticeFields): string {
    " " + ResourceMarker + f.backedUpResourceArn + "." + JobPart(f)
  }

  /** " Recovery point ARN: <rp>." followed by the resource part. */
  function RecoveryPart(f: NoticeFields): string {
    " " + RecoveryPointMarker + f.recoveryPointArn + "." + ResourcePart(f)
  }

  /** The notice text carrying the four fields. */
  function Format(f: NoticeFields): string {
    f.statusMessage + RecoveryPart(f)
  }

  /**
   * Fields the parsers read back unchanged: the status ends at its only
   * '.', the two ARNs hold no '.', and no marker appears again after the
   * place where it belongs (nor the first one inside the status).
   */
  ghost predicate WellFormed(f: NoticeFields) {
    && |f.statusMessage| > 0
    && f.statusMessage[|f.statusMessage| - 1] == '.'
    && '.' !in f.statusMessage[..|f.statusMessage| - 1]
    && !Occurs(f.statusMessage, RecoveryPointMarker)
    && '.' !in f.recoveryPointArn
    && '.' !in f.backedUpResourceArn
    && !Occurs(f.recoveryPointArn + "." + ResourcePart(f), RecoveryPointMarker)
    && !Occurs(f.backedUpResourceArn + "." + JobPart(f), ResourceMarker)
    && !Occurs(f.backupJobId, JobIdMarker)
  }

  // ---------------------------------------------------------------------
  // The sample notice of src/start-workflow/main.go:160
  // ---------------------------------------------------------------------

  // Written in pieces, like the markers above, to keep proofs about the sample fast.
  const SampleRegion: string := "us-east-1"
  const SampleAccount: string := "637093487455"
  const SampleAccountPrefix: string := "arn:aws:dynamodb:" + SampleRegion + ":" + SampleAccount + ":"
  const SampleResourceArn: string := SampleAccountPrefix + "table/" + "MyDynamoDBTable"
  const SampleRecoveryPointArn: string := SampleResourceArn + "/backup/" + "01568804569000-" + "d3306d76"
  const SampleJobId: string := "5a772b5a-36d5-" + "4a69-9b18-" + "ed2f5213c659"

  /** The fields of the sample notice; `Format(Sample())` is its text. */
  function Sample(): NoticeFields {
    NoticeFields(SuccessSentence, SampleRecoveryPointArn, SampleResourceArn, SampleJobId)
  }

  /** None of the characters that tell the markers and the field ends apart. */
  predicate Plain(s: string) {
    forall i | 0 <= i < |s| :: s[i] != '.' && s[i] != 'v' && s[i] != 'R' && s[i] != 'J'
  }

  lemma PlainWords()
    ensures Plain("An AWS Backup job ") && Plain("was completed ") && Plain("successfully")
  {
  }

  lemma PlainResourceArn()
    ensures Plain("arn:aws:dynamodb:") && Plain(SampleRegion) && Plain(":") && Plain(SampleAccount)
    ensures Plain("table/") && Plain("MyDynamoDBTable")
  {
  }

  lemma PlainBackupSuffix()
    ensures Plain("/backup/") && Plain("01568804569000-") && Plain("d3306d76")
  {
  }

  lemma PlainJobId()
    ensures Plain("5a772b5a-36d5-") && Plain("4a69-9b18-") && Plain("ed2f5213c659")
  {
  }

  /**
   * `c` is nowhere in `s`: `c !in s` stated position by position, the form
   * in which the proofs below carry it over to slices of `s`.
   */
  predicate Lacks(s: string, c: char) {
    forall i | 0 <= i < |s| :: s[i] != c
  }

  /** Which of the telling characters each marker holds. */
  lemma MarkerChars()
    ensures 'v' in RecoveryPointMarker && 'R' in ResourceMarker && 'J' in JobIdMarker
    ensures Lacks(ResourceMarker, 'v') && Lacks(JobIdMarker, 'v') && Lacks(JobIdMarker, 'R')
  {
    assert RecoveryPointMarker[4] == 'v' && ResourceMarker[10] == 'R' && JobIdMarker[7] == 'J';
    MarkersLackChars();
  }

  /** The markers start with letters other than a space and hold no '.'. */
  lemma MarkerEnds()
    ensures RecoveryPointMarker[0] != ' ' && ResourceMarker[0] != ' ' && JobIdMarker[0] != ' '
    ensures Lacks(RecoveryPointMarker, '.') && Lacks(ResourceMarker, '.')
  {
  }

  lemma MarkersLackChars()
    ensures Lacks(ResourceMarker, 'v') && Lacks(JobIdMarker, 'v') && Lacks(JobIdMarker, 'R')
  {
  }

  /** The success sentence ends at its only '.' and holds no 'v'. */
  lemma SuccessSentenceEndsAtDot()
    ensures |SuccessSentence| > 0 && SuccessSentence[|SuccessSentence| - 1] == '.'
    ensures '.' !in SuccessSentence[..|SuccessSentence| - 1]
    ensures 'v' !in SuccessSentence
  {
    PlainWords();
    assert SuccessSentence[..|SuccessSentence| - 1] == SuccessWords;
    assert Plain(SuccessWords);
  }

  lemma PlainSampleArns()
    ensures Plain(SampleResourceArn) && Plain(SampleRecoveryPointArn) && Plain(SampleJobId)
  {
    PlainResourceArn();
    PlainBackupSuffix();
    PlainJobId();
  }

  /** After the recovery point marker, the sample holds no 'v', so no second marker. */
  lemma SampleRecoveryMarkerOnce()
    ensures !Occurs(Sample().recoveryPointArn + "." + ResourcePart(Sample()), RecoveryPointMarker)
  {
    var f := Sample();
    MarkerChars();
    PlainSampleArns();
    var tail := f.recoveryPointArn + "." + ResourcePart(f);
    assert Lacks(tail, 'v');
    AbsentChar(tail, RecoveryPointMarker, 'v');
  }

  /** After the resource marker, the sample holds no 'R', so no second marker. */
  lemma SampleResourceMarkerOnce()
    ensures !Occurs(Sample().backedUpResourceArn + "." + JobPart(Sample()), ResourceMarker)
  {
    var f := Sample();
    MarkerChars();
    PlainSampleArns();
    var tail := f.backedUpResourceArn + "." + JobPart(f);
    assert Lacks(tail, 'R');
    AbsentChar(tail, ResourceMarker, 'R');
  }

  /** The sample's fields are ones the parsers read back unchanged. */
  lemma SampleWellFormed()
    ensures WellFormed(Sample())
  {
    var f := Sample();
    SuccessSentenceEndsAtDot();
    MarkerChars();
    PlainSampleArns();
    AbsentChar(f.statusMessage, RecoveryPointMarker, 'v');
    AbsentChar(f.backupJobId, JobIdMarker, 'J');
    SampleRecoveryMarkerOnce();
    SampleResourceMarkerOnce();
  }
}
