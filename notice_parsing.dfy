/**
 * What `parseSnsInput` of src/start-workflow/main.go reads out of a
 * notice, stated without the splits: each field is a stretch of the
 * message between positions found by searching forward from the
 * recovery point marker; a search that fails is a panic; and the text
 * built by `BackupNotice.Format` from well-formed fields is read back as
 * exactly those fields.
 *
 * The lemmas about pieces of a message take the markers as parameters,
 * so that each proof deals with three searches at most.
 */
module NoticeParsing {
  import opened Outcomes
  import opened GoStrings
  import opened BackupNotice
  import opened StartWorkflow

  /** The status ends just after the first '.' before position `a`, or at `a` when there is none. */
  function StatusEnd(m: string, a: nat): (r: nat)
    requires a <= |m|
    ensures r <= a
  {
    match Index(m[..a], ".")
    case Some(d) => d + 1
    case None => a
  }

  /** The status message is the prefix of the message up to `StatusEnd`. */
  lemma StatusAtStart(m: string, a: nat)
    requires a <= |m|
    ensures SplitAfter(m[..a], ".")[0] == m[..StatusEnd(m, a)]
  {
    match Index(m[..a], ".")
    case Some(d) =>
      SplitAt(m[..a], ".", true, -1, d);
    case None =>
      SplitWithoutSep(m[..a], ".", true, -1);
  }

  /** A `SplitAfter` of the piece `m[i..j]` that has a second piece, as positions in `m`. */
  lemma MarkerSplitIn(m: string, i: nat, j: nat, p: string, sep: string) returns (k: nat, end: nat)
    requires |sep| > 0 && i <= j <= |m| && p == m[i..j]
    requires |SplitAfter(p, sep)| >= 2
    ensures IndexFrom(m, sep, i) == Some(k) && k + |sep| <= end <= j
    ensures SplitAfter(p, sep)[0] == m[i..k + |sep|]
    ensures SplitAfter(p, sep)[1] == m[k + |sep|..end]
    ensures IndexFrom(m, sep, k + |sep|).None? ==> end == j
  {
    SplitAfterInSlice(m, i, j, sep);
    k := IndexFrom(m, sep, i).value;
    end := k + |sep| + |SplitAfter(p, sep)[1]|;
    if IndexFrom(m, sep, k + |sep|).None? {
      RestUnsplit(m, i, j, p, sep, k);
    }
  }

  /** When `sep` does not recur after its first occurrence at `k`, the second piece of the split is the whole rest of `m[i..j]`. */
  lemma RestUnsplit(m: string, i: nat, j: nat, p: string, sep: string, k: nat)
    requires |sep| > 0 && i <= k && k + |sep| <= j <= |m| && p == m[i..j]
    requires IndexFrom(m, sep, i) == Some(k) && IndexFrom(m, sep, k + |sep|).None?
    ensures |SplitAfter(p, sep)| >= 2 && SplitAfter(p, sep)[1] == m[k + |sep|..j]
  {
    IndexFromInSlice(m, sep, i, j, k);
    var rest := m[k + |sep|..j];
    NoneInSlice(m, sep, k + |sep|, j);
    ContainsIffOccurs(rest, sep);
    assert p[k - i + |sep|..] == rest;
    SplitAfterOnce(p, sep, k - i);
  }

  /** A split into two pieces at the first '.' of the piece `m[i..j]`, as positions in `m`. */
  lemma DotSplitIn(m: string, i: nat, j: nat, p: string, sepSave: bool) returns (d: nat)
    requires i <= j <= |m| && p == m[i..j]
    requires |GenSplit(p, ".", sepSave, 2)| >= 2
    ensures IndexFrom(m, ".", i) == Some(d) && d < j
    ensures GenSplit(p, ".", sepSave, 2)[0] == m[i..if sepSave then d + 1 else d]
    ensures GenSplit(p, ".", sepSave, 2)[1] == m[d + 1..j]
  {
    SplitDotInSlice(m, i, j, sepSave);
    d := IndexFrom(m, ".", i).value;
  }

  /** The text before the first '.' of a piece that ends with it. */
  lemma FirstPieceIn(m: string, a: nat, d: nat, p: string)
    requires a <= d < |m| && IndexFrom(m, ".", a) == Some(d) && p == m[a..d + 1]
    ensures Split(p, ".")[0] == m[a..d]
  {
    IndexFromInSlice(m, ".", a, d + 1, d);
    SplitAt(m[a..d + 1], ".", false, -1, d - a);
    SliceOfSlice(m, a, d + 1, 0, d - a);
  }

  /**
   * The third to fifth splits, on the text `p == m[i..j]` after the '.'
   * that ends the recovery point ARN: the resource ARN and the job id as
   * positions in `m`.
   */
  lemma TailAt(m: string, i: nat, j: nat, p: string, m3: string, m4: string) returns (k3: nat, e: nat, k4: nat)
    requires |m3| > 0 && |m4| > 0 && i <= j <= |m| && p == m[i..j]
    requires |SplitAfter(p, m3)| >= 2
    requires |SplitN(SplitAfter(p, m3)[1], ".", 2)| >= 2
    requires |SplitAfter(SplitN(SplitAfter(p, m3)[1], ".", 2)[1], m4)| >= 2
    ensures IndexFrom(m, m3, i) == Some(k3)
    ensures IndexFrom(m, ".", k3 + |m3|) == Some(e)
    ensures IndexFrom(m, m4, e + 1) == Some(k4)
    ensures SplitN(SplitAfter(p, m3)[1], ".", 2)[0] == m[k3 + |m3|..e]
    ensures var job := SplitAfter(SplitN(SplitAfter(p, m3)[1], ".", 2)[1], m4)[1];
      k4 + |m4| + |job| <= |m| && job == m[k4 + |m4|..k4 + |m4| + |job|]
    ensures var job := SplitAfter(SplitN(SplitAfter(p, m3)[1], ".", 2)[1], m4)[1];
      IndexFrom(m, m3, k3 + |m3|).None? && IndexFrom(m, m4, k4 + |m4|).None? ==> k4 + |m4| + |job| == j
  {
    var e3;
    k3, e3 := MarkerSplitIn(m, i, j, p, m3);
    e, k4 := DotThenMarkerIn(m, k3 + |m3|, e3, SplitAfter(p, m3)[1], m4);
  }

  /**
   * The fourth and fifth splits, on the piece `q == m[a..j]`: the text
   * before its first '.', and what follows the next marker `m4`, as
   * positions in `m`.
   */
  lemma DotThenMarkerIn(m: string, a: nat, j: nat, q: string, m4: string) returns (e: nat, k4: nat)
    requires |m4| > 0 && a <= j <= |m| && q == m[a..j]
    requires |SplitN(q, ".", 2)| >= 2
    requires |SplitAfter(SplitN(q, ".", 2)[1], m4)| >= 2
    ensures IndexFrom(m, ".", a) == Some(e)
    ensures IndexFrom(m, m4, e + 1) == Some(k4)
    ensures SplitN(q, ".", 2)[0] == m[a..e]
    ensures var job := SplitAfter(SplitN(q, ".", 2)[1], m4)[1];
      k4 + |m4| + |job| <= j && job == m[k4 + |m4|..k4 + |m4| + |job|]
    ensures var job := SplitAfter(SplitN(q, ".", 2)[1], m4)[1];
      IndexFrom(m, m4, k4 + |m4|).None? ==> k4 + |m4| + |job| == j
  {
    e := DotSplitIn(m, a, j, q, false);
    var e4;
    k4, e4 := MarkerSplitIn(m, e + 1, j, SplitN(q, ".", 2)[1], m4);
  }

  /** The first two splits: the status and the recovery point ARN as positions in `m`. */
  lemma HeadAt(m: string, m1: string) returns (k1: nat, d: nat, e1: nat)
    requires |m1| > 0
    requires |SplitAfter(m, m1)| >= 2
    requires |SplitAfterN(SplitAfter(m, m1)[1], ".", 2)| >= 2
    ensures Index(m, m1) == Some(k1)
    ensures IndexFrom(m, ".", k1 + |m1|) == Some(d)
    ensures d < e1 <= |m|
    ensures IndexFrom(m, m1, k1 + |m1|).None? ==> e1 == |m|
    ensures SplitAfter(SplitAfter(m, m1)[0], ".")[0] == m[..StatusEnd(m, k1 + |m1|)]
    ensures Split(SplitAfterN(SplitAfter(m, m1)[1], ".", 2)[0], ".")[0] == m[k1 + |m1|..d]
    ensures SplitAfterN(SplitAfter(m, m1)[1], ".", 2)[1] == m[d + 1..e1]
  {
    var first := SplitAfter(m, m1);
    assert m[0..|m|] == m;
    k1, e1 := MarkerSplitIn(m, 0, |m|, m, m1);
    var a := k1 + |m1|;
    assert m[0..a] == m[..a];
    StatusAtStart(m, a);
    var second := SplitAfterN(first[1], ".", 2);
    d := DotSplitIn(m, a, e1, first[1], true);
    FirstPieceIn(m, a, d, second[0]);
  }
  /**
   * The five splits of `parseSnsInput`, for any markers, as positions in
   * the message: whenever each split has a second piece, the pieces read
   * are stretches between successive forward searches.
   */
  lemma PiecesAt(m: string, m1: string, m3: string, m4: string) returns (k1: nat, d: nat, k3: nat, e: nat, k4: nat)
    requires |m1| > 0 && |m3| > 0 && |m4| > 0
    requires |SplitAfter(m, m1)| >= 2
    requires |SplitAfterN(SplitAfter(m, m1)[1], ".", 2)| >= 2
    requires |SplitAfter(SplitAfterN(SplitAfter(m, m1)[1], ".", 2)[1], m3)| >= 2
    requires |SplitN(SplitAfter(SplitAfterN(SplitAfter(m, m1)[1], ".", 2)[1], m3)[1], ".", 2)| >= 2
    requires |SplitAfter(SplitN(SplitAfter(SplitAfterN(SplitAfter(m, m1)[1], ".", 2)[1], m3)[1], ".", 2)[1], m4)| >= 2
    ensures Index(m, m1) == Some(k1)
    ensures IndexFrom(m, ".", k1 + |m1|) == Some(d)
    ensures IndexFrom(m, m3, d + 1) == Some(k3)
    ensures IndexFrom(m, ".", k3 + |m3|) == Some(e)
    ensures IndexFrom(m, m4, e + 1) == Some(k4)
    ensures SplitAfter(SplitAfter(m, m1)[0], ".")[0] == m[..StatusEnd(m, k1 + |m1|)]
    ensures Split(SplitAfterN(SplitAfter(m, m1)[1], ".", 2)[0], ".")[0] == m[k1 + |m1|..d]
    ensures SplitN(SplitAfter(SplitAfterN(SplitAfter(m, m1)[1], ".", 2)[1], m3)[1], ".", 2)[0] == m[k3 + |m3|..e]
    ensures var job := SplitAfter(SplitN(SplitAfter(SplitAfterN(SplitAfter(m, m1)[1], ".", 2)[1], m3)[1], ".", 2)[1], m4)[1];
      k4 + |m4| + |job| <= |m| && job == m[k4 + |m4|..k4 + |m4| + |job|]
    ensures var job := SplitAfter(SplitN(SplitAfter(SplitAfterN(SplitAfter(m, m1)[1], ".", 2)[1], m3)[1], ".", 2)[1], m4)[1];
      && IndexFrom(m, m1, k1 + |m1|).None? && IndexFrom(m, m3, k3 + |m3|).None? && IndexFrom(m, m4, k4 + |m4|).None?
      ==> job == m[k4 + |m4|..]
  {
    var e1;
    k1, d, e1 := HeadAt(m, m1);
    var second := SplitAfterN(SplitAfter(m, m1)[1], ".", 2);
    k3, e, k4 := TailAt(m, d + 1, e1, second[1], m3, m4);
    var job := SplitAfter(SplitN(SplitAfter(second[1], m3)[1], ".", 2)[1], m4)[1];
    if k4 + |m4| + |job| == |m| {
      assert m[k4 + |m4|..k4 + |m4| + |job|] == m[k4 + |m4|..];
    }
  }

  /**
   * Whenever the fields are read, each is a stretch of the message found
   * by searching forward: the status up to the first '.' before the end
   * of the recovery point marker, the recovery point ARN from there to
   * the next '.', the resource ARN between the next resource marker and
   * the '.' after it, and the job id from the end of the next job id
   * marker on.
   */
  lemma ExtractedAtMarkers(m: string) returns (k1: nat, d: nat, k3: nat, e: nat, k4: nat)
    requires ExtractFields(m).Ok?
    ensures Index(m, RecoveryPointMarker) == Some(k1)
    ensures IndexFrom(m, ".", k1 + |RecoveryPointMarker|) == Some(d)
    ensures IndexFrom(m, ResourceMarker, d + 1) == Some(k3)
    ensures IndexFrom(m, ".", k3 + |ResourceMarker|) == Some(e)
    ensures IndexFrom(m, JobIdMarker, e + 1) == Some(k4)
    ensures var f := ExtractFields(m).value;
      && f.statusMessage == m[..StatusEnd(m, k1 + |RecoveryPointMarker|)]
      && f.recoveryPointArn == m[k1 + |RecoveryPointMarker|..d]
      && f.backedUpResourceArn == m[k3 + |ResourceMarker|..e]
      && k4 + |JobIdMarker| + |f.backupJobId| <= |m|
      && f.backupJobId == m[k4 + |JobIdMarker|..k4 + |JobIdMarker| + |f.backupJobId|]
  {
    k1, d, k3, e, k4 := PiecesAt(m, RecoveryPointMarker, ResourceMarker, JobIdMarker);
  }

  /**
   * When none of the three markers recurs after the occurrence it was
   * split on, the job id is the whole rest of the message after the job
   * id marker.
   */
  lemma JobIdRunsToEnd(m: string) returns (k1: nat, d: nat, k3: nat, e: nat, k4: nat)
    requires ExtractFields(m).Ok?
    ensures Index(m, RecoveryPointMarker) == Some(k1)
    ensures IndexFrom(m, ".", k1 + |RecoveryPointMarker|) == Some(d)
    ensures IndexFrom(m, ResourceMarker, d + 1) == Some(k3)
    ensures IndexFrom(m, ".", k3 + |ResourceMarker|) == Some(e)
    ensures IndexFrom(m, JobIdMarker, e + 1) == Some(k4)
    ensures
      && IndexFrom(m, RecoveryPointMarker, k1 + |RecoveryPointMarker|).None?
      && IndexFrom(m, ResourceMarker, k3 + |ResourceMarker|).None?
      && IndexFrom(m, JobIdMarker, k4 + |JobIdMarker|).None?
      ==> ExtractFields(m).value.backupJobId == m[k4 + |JobIdMarker|..]
  {
    k1, d, k3, e, k4 := PiecesAt(m, RecoveryPointMarker, ResourceMarker, JobIdMarker);
  }

  /** The recovery point and resource ARNs read from a message hold no '.', and every field is part of the message. */
  lemma ExtractedFieldsAreInfixes(m: string)
    requires ExtractFields(m).Ok?
    ensures var f := ExtractFields(m).value;
      && '.' !in f.recoveryPointArn && '.' !in f.backedUpResourceArn
      && Occurs(m, f.statusMessage) && Occurs(m, f.recoveryPointArn)
      && Occurs(m, f.backedUpResourceArn) && Occurs(m, f.backupJobId)
  {
    var d, e1 := HeadPiecesAreInfixes(m, RecoveryPointMarker);
    var second := SplitAfterN(SplitAfter(m, RecoveryPointMarker)[1], ".", 2);
    TailPiecesAreInfixes(m, d + 1, e1, second[1], ResourceMarker, JobIdMarker);
  }

  /** The status and the recovery point ARN occur in the message, the ARN without a '.'; the rest is `m[d + 1..e1]`. */
  lemma HeadPiecesAreInfixes(m: string, m1: string) returns (d: nat, e1: nat)
    requires |m1| > 0
    requires |SplitAfter(m, m1)| >= 2
    requires |SplitAfterN(SplitAfter(m, m1)[1], ".", 2)| >= 2
    ensures var rp := Split(SplitAfterN(SplitAfter(m, m1)[1], ".", 2)[0], ".")[0];
      '.' !in rp && Occurs(m, SplitAfter(SplitAfter(m, m1)[0], ".")[0]) && Occurs(m, rp)
    ensures d < e1 <= |m| && SplitAfterN(SplitAfter(m, m1)[1], ".", 2)[1] == m[d + 1..e1]
  {
    var k1;
    k1, d, e1 := HeadAt(m, m1);
    HeadInfixes(m, SplitAfter(SplitAfter(m, m1)[0], ".")[0], Split(SplitAfterN(SplitAfter(m, m1)[1], ".", 2)[0], ".")[0],
      StatusEnd(m, k1 + |m1|), k1 + |m1|, d);
  }

  /** The resource ARN and the job id cut out of `p == m[i..j]` occur in the message, the ARN without a '.'. */
  lemma TailPiecesAreInfixes(m: string, i: nat, j: nat, p: string, m3: string, m4: string)
    requires |m3| > 0 && |m4| > 0 && i <= j <= |m| && p == m[i..j]
    requires |SplitAfter(p, m3)| >= 2
    requires |SplitN(SplitAfter(p, m3)[1], ".", 2)| >= 2
    requires |SplitAfter(SplitN(SplitAfter(p, m3)[1], ".", 2)[1], m4)| >= 2
    ensures var tail := SplitN(SplitAfter(p, m3)[1], ".", 2);
      '.' !in tail[0] && Occurs(m, tail[0]) && Occurs(m, SplitAfter(tail[1], m4)[1])
  {
    var k3, e, k4 := TailAt(m, i, j, p, m3, m4);
    var tail := SplitN(SplitAfter(p, m3)[1], ".", 2);
    TailInfixes(m, tail[0], SplitAfter(tail[1], m4)[1], k3 + |m3|, e, k4 + |m4|);
  }

  /** The status and the recovery point ARN, cut out at these positions, occur in the message; the ARN holds no '.'. */
  lemma HeadInfixes(m: string, status: string, rp: string, s: nat, a1: nat, d: nat)
    requires s <= |m| && status == m[..s]
    requires IndexFrom(m, ".", a1) == Some(d) && rp == m[a1..d]
    ensures '.' !in rp && Occurs(m, status) && Occurs(m, rp)
  {
    DotFreeStretch(m, a1, d, rp);
    StretchOccurs(m, 0, status);
  }

  /** The resource ARN and the job id, cut out at these positions, occur in the message; the ARN holds no '.'. */
  lemma TailInfixes(m: string, res: string, job: string, a3: nat, e: nat, a4: nat)
    requires IndexFrom(m, ".", a3) == Some(e) && res == m[a3..e]
    requires a4 + |job| <= |m| && job == m[a4..a4 + |job|]
    ensures '.' !in res && Occurs(m, res) && Occurs(m, job)
  {
    DotFreeStretch(m, a3, e, res);
    StretchOccurs(m, a4, job);
  }

  /** A stretch up to the first '.' found from its start holds no '.' and occurs in the message. */
  lemma DotFreeStretch(m: string, a: nat, d: nat, p: string)
    requires IndexFrom(m, ".", a) == Some(d) && p == m[a..d]
    ensures '.' !in p && Occurs(m, p)
  {
    NoDotBefore(m, a, d);
    StretchOccurs(m, a, p);
  }

  /** A stretch of the message occurs in it. */
  lemma StretchOccurs(m: string, a: nat, p: string)
    requires a + |p| <= |m| && p == m[a..a + |p|]
    ensures Occurs(m, p)
  {
    assert OccursAt(m, p, a);
  }

  /** Up to the first '.' found from `a`, there is none. */
  lemma NoDotBefore(m: string, a: nat, d: nat)
    requires IndexFrom(m, ".", a) == Some(d)
    ensures '.' !in m[a..d]
  {
    forall k | a <= k < d
      ensures m[k] != '.'
    {
      assert !OccursAt(m, ".", k);
      assert m[k..k + 1] == [m[k]];
    }
  }

  /** Without the recovery point marker, the first `[1]` panics. */
  lemma NoRecoveryMarkerPanics(m: string)
    requires !Contains(m, RecoveryPointMarker)
    ensures ExtractFields(m) == Panic(IndexOutOfRange("firstSplitString"))
  {
    SplitWithoutSep(m, RecoveryPointMarker, true, -1);
  }

  /** A marker with no '.' after it leaves the second split in one piece, whatever the marker. */
  lemma NoDotAfterMarkerUncut(m: string, m1: string, k1: nat)
    requires |m1| > 0 && Index(m, m1) == Some(k1) && IndexFrom(m, ".", k1 + |m1|).None?
    ensures |SplitAfter(m, m1)| >= 2 && |SplitAfterN(SplitAfter(m, m1)[1], ".", 2)| == 1
  {
    SecondPieceAt(m, m1, k1);
    var p1 := SplitAfter(m, m1)[1];
    NoneInSlice(m, ".", k1 + |m1|, k1 + |m1| + |p1|);
    SplitWithoutSep(p1, ".", true, 2);
  }

  /** With the marker but no '.' after it, the second `[1]` panics. */
  lemma NoDotAfterMarkerPanics(m: string)
    requires Contains(m, RecoveryPointMarker)
    requires IndexFrom(m, ".", Index(m, RecoveryPointMarker).value + |RecoveryPointMarker|).None?
    ensures ExtractFields(m) == Panic(IndexOutOfRange("secondSplitString"))
  {
    NoDotAfterMarkerUncut(m, RecoveryPointMarker, Index(m, RecoveryPointMarker).value);
  }

  /** Whenever the fields are read, the five forward searches all succeed. */
  lemma SearchesSucceed(m: string) returns (k1: nat, d: nat, k3: nat, e: nat, k4: nat)
    requires ExtractFields(m).Ok?
    ensures Index(m, RecoveryPointMarker) == Some(k1)
    ensures IndexFrom(m, ".", k1 + |RecoveryPointMarker|) == Some(d)
    ensures IndexFrom(m, ResourceMarker, d + 1) == Some(k3)
    ensures IndexFrom(m, ".", k3 + |ResourceMarker|) == Some(e)
    ensures IndexFrom(m, JobIdMarker, e + 1) == Some(k4)
  {
    k1, d, k3, e, k4 := ExtractedAtMarkers(m);
  }

  /** Without any resource marker, the parser panics. */
  lemma NoResourceMarkerPanics(m: string)
    requires !Occurs(m, ResourceMarker)
    ensures ExtractFields(m).Panic?
  {
    if ExtractFields(m).Ok? {
      var k1, d, k3, e, k4 := SearchesSucceed(m);
    }
  }

  /** With no '.' after the resource marker, the parser panics. */
  lemma NoDotAfterResourcePanics(m: string, k1: nat, d: nat, k3: nat)
    requires Index(m, RecoveryPointMarker) == Some(k1)
    requires IndexFrom(m, ".", k1 + |RecoveryPointMarker|) == Some(d)
    requires IndexFrom(m, ResourceMarker, d + 1) == Some(k3)
    requires IndexFrom(m, ".", k3 + |ResourceMarker|) == None
    ensures ExtractFields(m).Panic?
  {
    if ExtractFields(m).Ok? {
      var k1', d', k3', e, k4 := SearchesSucceed(m);
    }
  }

  /** Without any job id marker, the parser panics. */
  lemma NoJobIdMarkerPanics(m: string)
    requires !Occurs(m, JobIdMarker)
    ensures ExtractFields(m).Panic?
  {
    if ExtractFields(m).Ok? {
      var k1, d, k3, e, k4 := SearchesSucceed(m);
    }
  }

  /** The notice splits at its recovery point marker into the marked status and the rest. */
  lemma FormatFirstSplit(f: NoticeFields)
    requires WellFormed(f)
    ensures SplitAfter(Format(f), RecoveryPointMarker)
      == [f.statusMessage + " " + RecoveryPointMarker, f.recoveryPointArn + "." + ResourcePart(f)]
  {
    MarkerEnds();
    var t1 := f.recoveryPointArn + "." + ResourcePart(f);
    assert RecoveryPart(f) == [' '] + RecoveryPointMarker + t1;
    SplitAfterPrefixed(f.statusMessage, ' ', RecoveryPointMarker, t1);
  }

  /** The marked status is cut back to the status at its only '.'. */
  lemma FormatStatus(f: NoticeFields)
    requires WellFormed(f)
    ensures SplitAfter(f.statusMessage + " " + RecoveryPointMarker, ".")[0] == f.statusMessage
  {
    var s := f.statusMessage;
    assert s + " " + RecoveryPointMarker == s[..|s| - 1] + "." + (" " + RecoveryPointMarker);
    SplitAtFirstDot(s[..|s| - 1], " " + RecoveryPointMarker, true, -1);
    assert s[..|s| - 1] + "." == s;
  }

  /** The rest splits at the '.' closing the recovery point ARN. */
  lemma FormatRecoveryArn(f: NoticeFields)
    requires WellFormed(f)
    ensures SplitAfterN(f.recoveryPointArn + "." + ResourcePart(f), ".", 2)
      == [f.recoveryPointArn + ".", ResourcePart(f)]
    ensures Split(f.recoveryPointArn + ".", ".")[0] == f.recoveryPointArn
  {
    var rp := f.recoveryPointArn;
    SplitAtFirstDot(rp, ResourcePart(f), true, 2);
    SplitAtFirstDot(rp, "", false, -1);
    assert rp + "." + "" == rp + ".";
  }

  /** The resource part splits at its marker, at the '.' after the ARN, and at the job id marker. */
  lemma FormatResourceAndJob(f: NoticeFields)
    requires WellFormed(f)
    ensures SplitAfter(ResourcePart(f), ResourceMarker)
      == [" " + ResourceMarker, f.backedUpResourceArn + "." + JobPart(f)]
    ensures SplitN(f.backedUpResourceArn + "." + JobPart(f), ".", 2) == [f.backedUpResourceArn, JobPart(f)]
    ensures SplitAfter(JobPart(f), JobIdMarker) == [" " + JobIdMarker, f.backupJobId]
  {
    MarkerEnds();
    var t3 := f.backedUpResourceArn + "." + JobPart(f);
    assert ResourcePart(f) == [' '] + ResourceMarker + t3;
    SplitAfterOneChar(' ', ResourceMarker, t3);
    SplitAtFirstDot(f.backedUpResourceArn, JobPart(f), false, 2);
    assert JobPart(f) == [' '] + JobIdMarker + f.backupJobId;
    SplitAfterOneChar(' ', JobIdMarker, f.backupJobId);
  }

  /** Well-formed fields are read back unchanged from the notice they make. */
  lemma ReadsBackFormat(f: NoticeFields)
    requires WellFormed(f)
    ensures ExtractFields(Format(f)) == Ok(f)
  {
    FormatFirstSplit(f);
    FormatStatus(f);
    FormatRecoveryArn(f);
    FormatResourceAndJob(f);
  }

  /** The sample notice of src/start-workflow/main.go is read as its four fields. */
  lemma SampleIsRead()
    ensures ExtractFields(Format(Sample())) == Ok(Sample())
  {
    SampleWellFormed();
    ReadsBackFormat(Sample());
  }
}
