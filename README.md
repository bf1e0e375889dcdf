# DynamoDB backup rotator, modelled in Dafny

This project models the decision logic of the AWS Backup DynamoDB rotator:
three Go Lambdas that turn an AWS Backup "job completed" SNS notice into a
restore of the backed-up DynamoDB table under a new, time-stamped name.

- **start-workflow** (`src/start-workflow/main.go`). It parses the notice
  text by splitting on its literal markers and on '.'. It reads the
  `StartTime` message attribute. It then decides whether the job is a
  completed backup of a DynamoDB table selected by `SOURCE_PATTERN`. If so,
  it starts the restore state machine.
- **restore-backup**, older version (`src/restore-backup/main.go`). It runs
  the same splits with no length guards and restores the recovery point
  into the fixed table `MyRestoredDynamoDBTable`.
- **restore-backup**, state-machine step (`functions/restore-backup/main.go`).
  It takes the table name out of the resource ARN, rewrites it with the
  source and replacement patterns, and appends a `-YYYYMMDD-HH-mm-ss` stamp
  of the backup's start time.

The parsing and naming functions of all three are pure: splits, index
lookups, two regex matches in start-workflow, and a compile, a replace-all
and a time format in functions/restore-backup. They are modelled as
functions over datatypes, with lemmas about them. The handlers' reads of
the environment and their AWS SDK calls are left out (below). A Go panic (indexing past the end of a
slice, a failed type assertion, `Records[0]` of no records) is a value:
`Outcome.Panic(cause)`.

Modules:

| file | module | contents |
|---|---|---|
| outcomes.dfy | `Outcomes` | `Option`, `PanicCause` and `Outcome` (Ok, Err or Panic) |
| go_strings.dfy | `GoStrings` | Go's `Index`, `Contains`, `Count` and `genSplit` (`Split`, `SplitN`, `SplitAfter`, `SplitAfterN`), with lemmas about where the pieces come from |
| go_time.dfy | `GoTime` | `time.Time` as wall-clock fields plus a UTC offset; `Format("-20060102-15-04-05")` |
| go_regexp.dfy | `GoRegexp` | the user-pattern regex engine as a value (compile error, match, replace-all) and `regexp.MatchString` |
| table_arn.dfy | `TableArn` | the fixed pattern `(?i)^arn:aws:dynamodb:.*:.*:table/.*`, decided by a scan and proved equal to the pattern's language |
| backup_notice.dfy | `BackupNotice` | the notice's markers, the text `Format` builds from four fields, the well-formedness condition, and the sample notice |
| start_workflow.dfy | `StartWorkflow` | `parseSnsInput`, `isMatchingJob` and `handler` |
| notice_parsing.dfy | `NoticeParsing` | where each extracted field lies in the notice, when parsing panics, and the round trip from `Format` |
| sample_notice.dfy | `SampleNotice` | the sample notice carried through the whole handler |
| legacy_restore.dfy | `LegacyRestore` | the older `parseSnsInput` and how it agrees with the start-workflow parser |
| restore_backup.dfy | `RestoreBackup` | `parseInput`: table name, rewrite, stamp and restore request |

Behaviour of the code that is easy to misread, and which the model keeps:

- **Which table name is rewritten.** The code uses
  `SplitAfter(arn, "table/")[1]`. That is the text after the *first*
  `table/`, up to and including the next `table/` if there is one. It is
  not the segment after the last `table/`
  (`RestoreBackup.TableNameIsSegment`).
- **Time zone of the stamp.** The code formats the parsed time in the
  offset it carries, with no conversion to UTC
  (`GoTime.StampUsesCarriedOffset`).
- **How many matches are replaced.** The code calls `ReplaceAllString`, so
  every match of the source pattern is replaced, not only the first. The
  model passes the call to the engine's `replaceAll` unchanged.
- **The resource marker.** A comment in the parser names the marker
  "Backed Up Resource ARN : ". The code, and so the model, uses
  "Backed up Resource ARN : ".

## Model

| member | source | states |
|---|---|---|
| StartWorkflow.ExtractFields | src/start-workflow/main.go:168-207 | Cutting the four fields never returns an error, so the `len(...) == 0` guards are dead; it fails only by an index-out-of-range panic naming one of the five slices |
| StartWorkflow.StartTimeValue | src/start-workflow/main.go:209-212 | The StartTime text is read exactly when the attribute is a map whose "Value" is a string, and it is that string; otherwise a type assertion panics and there is never an error |
| StartWorkflow.ParseSnsInput | src/start-workflow/main.go:148-226 | No records panics; the only error is "parse failure: StartTime"; a panic while splitting the message or reading the StartTime attribute is passed on with its cause; a parsed message carries the first record's four fields and the time the StartTime text parses to; when all three steps succeed the result is a parsed message |
| StartWorkflow.ParseReadsFirstRecordOnly | src/start-workflow/main.go:150-151 | Events with the same first record parse to the same result, whatever their other records |
| StartWorkflow.RejectedStartTimeIsError | src/start-workflow/main.go:213-217 | A well-formed notice whose StartTime text RFC 3339 parsing rejects gives the error "parse failure: StartTime" |
| StartWorkflow.IsMatchingJob | src/start-workflow/main.go:113-146 | Never panics; no success sentence in the status gives false; a resource that is not a DynamoDB table ARN gives false; errors come only from compiling the user pattern; once both gates pass, a pattern that fails to compile gives its compile error and otherwise the result is whether the pattern matches the resource ARN; true exactly when all three gates pass |
| StartWorkflow.Handler | src/start-workflow/main.go:48-107 | A crash is exactly a parser panic, with its cause; a parse error is returned as is; a match error on a parsed message is returned as is; every failure is the StartTime error or the pattern's compile error; a parsed message gives no restore exactly when its job does not match; a parsed message whose job matches starts the state machine at the configured ARN with that message and the configured patterns and parameter name; a started execution carries the parsed message, the matched completed table backup and the configured ARN, patterns and parameter name |
| GoRegexp.MatchString | src/start-workflow/main.go:131-145 | `regexp.MatchString` never panics and fails exactly when the pattern does not compile |
| TableArn.IsDynamoTableArnIff | src/start-workflow/main.go:130-131 | The scan that decides the fixed table pattern accepts exactly the pattern's language: a case-folded "arn:aws:dynamodb:", then text without newlines holding a ':' before a ':' followed by a case-folded "table/" |
| TableArn.AcceptsTableArn | src/start-workflow/main.go:130-131 | Every prefix, region, account, "table/" and rest, in any letter case and with no newline in region or account, is accepted as a DynamoDB table ARN |
| TableArn.RejectsOtherPrefix | src/start-workflow/main.go:130-131 | Text that does not start with a case-folded "arn:aws:dynamodb:" is rejected |
| TableArn.RejectsNewlineBeforeTable | src/start-workflow/main.go:130-131 | A newline before the first ":table/" makes the pattern fail |
| GoStrings.SplitCount | src/start-workflow/main.go:170-202 | An unbounded split has one more piece than the separator has occurrences, so each `[1]` panics exactly when its marker is missing |
| GoStrings.SplitAfterConcat | src/start-workflow/main.go:170-202 | The pieces of a `SplitAfter` glue back into the text that was split |
| BackupNotice.SuccessSentenceEndsAtDot | src/start-workflow/main.go:123 | The success sentence ends at its only '.' |
| BackupNotice.SampleWellFormed | src/start-workflow/main.go:159-160 | The sample notice's fields meet the condition under which the parser reads them back |
| NoticeParsing.StatusAtStart | src/start-workflow/main.go:175 | The status is the notice's prefix up to and including its first '.' before the end of the first marker, or the whole text up to that point if there is no '.' |
| NoticeParsing.ExtractedAtMarkers | src/start-workflow/main.go:168-207 | A parsed notice has its markers and dots at the first positions searched from the previous field on; the status, recovery point ARN and resource ARN are the slices between them, and the job id is a slice that starts right after the job id marker |
| NoticeParsing.JobIdRunsToEnd | src/start-workflow/main.go:168-207 | When none of the three markers recurs after the occurrence it was split on, the job id is the whole rest of the message after the job id marker |
| NoticeParsing.ExtractedFieldsAreInfixes | src/start-workflow/main.go:177-198 | Both ARNs hold no '.', and all four fields are substrings of the notice |
| NoticeParsing.NoRecoveryMarkerPanics | src/start-workflow/main.go:170-179 | A notice without "Recovery point ARN: " panics at `firstSplitString[1]` |
| NoticeParsing.NoDotAfterMarkerPanics | src/start-workflow/main.go:179-188 | No '.' after the recovery point marker panics at `secondSplitString[1]` |
| NoticeParsing.NoResourceMarkerPanics | src/start-workflow/main.go:187-193 | A notice without the resource marker panics |
| NoticeParsing.NoDotAfterResourcePanics | src/start-workflow/main.go:193-202 | No '.' after the resource marker panics |
| NoticeParsing.NoJobIdMarkerPanics | src/start-workflow/main.go:201-207 | A notice without "Backup Job Id : " panics |
| NoticeParsing.ReadsBackFormat | src/start-workflow/main.go:159-207 | Parsing the notice text built from well-formed fields gives back exactly those fields |
| NoticeParsing.SampleIsRead | src/start-workflow/main.go:159-166 | The sample notice parses to its sample status, recovery point ARN, resource ARN and job id |
| SampleNotice.SampleResourceIsTable | src/start-workflow/main.go:129-139 | The sample resource ARN matches the fixed DynamoDB table pattern |
| SampleNotice.SampleEventIsParsed | src/start-workflow/main.go:148-226 | The sample event with a parseable StartTime parses to the sample fields and that time |
| SampleNotice.SampleStartsRestore | src/start-workflow/main.go:48-107 | When the source pattern compiles and matches the sample table, the sample event starts the state machine with the sample message and the configured values |
| SampleNotice.SampleUnmatchedStartsNothing | src/start-workflow/main.go:71-74 | When the source pattern compiles but does not match the sample table, nothing starts and no error is returned |
| SampleNotice.SampleBadPatternFails | src/start-workflow/main.go:63-69 | A source pattern that does not compile makes the handler return its compile error |
| LegacyRestore.ParseSnsInput | src/restore-backup/main.go:76-128 | Never an error; no records panics; panics exactly when the start-workflow parser does, with the same cause; otherwise it restores that parser's recovery point ARN into "MyRestoredDynamoDBTable" |
| LegacyRestore.BackupArnIsDotFreeInfix | src/restore-backup/main.go:97-104 | The restored backup ARN is a substring of the notice with no '.' |
| LegacyRestore.NoRecoveryMarkerPanics | src/restore-backup/main.go:97-103 | A notice without the recovery point marker panics at `firstSplitString[1]` |
| LegacyRestore.MissingLaterMarkerPanics | src/restore-backup/main.go:107-115 | A notice without the resource marker or the job id marker panics |
| LegacyRestore.SampleBackupArn | src/restore-backup/main.go:85-127 | The sample notice restores its recovery point ARN into "MyRestoredDynamoDBTable" |
| RestoreBackup.ParseInput | functions/restore-backup/main.go:74-104 | Never panics; an ARN without "table/" gives "Bad input ARN" before the pattern is compiled; otherwise it fails exactly with the compile error; a request passes the recovery point through unchanged, and its target name ends in the start time's 18-character stamp |
| RestoreBackup.BadArnIgnoresPatterns | functions/restore-backup/main.go:76-80 | A bad ARN gives the same "Bad input ARN" error with any engine and any patterns |
| RestoreBackup.TableNameIsSegment | functions/restore-backup/main.go:76-81 | The table name starts right after the first "table/"; it runs up to and including the next "table/" if there is one, and otherwise to the end of the ARN |
| RestoreBackup.TargetNameLayout | functions/restore-backup/main.go:90-97 | The target name is the rewritten table name followed by an 18-character stamp spelling the start time's fields |
| RestoreBackup.TargetNameDeterministic | functions/restore-backup/main.go:76-97 | Inputs with the same resource ARN, patterns and start time get the same target name |
| RestoreBackup.OrdersTableName | functions/restore-backup/main.go:76-81 | The ARN of table "Orders" splits into the account prefix with "table/", and "Orders" |
| RestoreBackup.OrdersExample | functions/restore-backup/main.go:74-104 | "Orders" rewritten to "Orders-copy" at 2021-03-04T05:06:07Z is restored as "Orders-copy-20210304-05-06-07" from the given recovery point |
| GoTime.StampLayout | functions/restore-backup/main.go:94-96 | For an RFC 3339 time the stamp is '-', then YYYYMMDD, '-HH', '-mm' and '-ss', zero-padded and decoding back to the time's own fields |
| GoTime.StampInjective | functions/restore-backup/main.go:94-96 | Two times with the same stamp agree from the year down to the second |
| GoTime.StampAtPlusOneHour | functions/restore-backup/main.go:96 | 2021-03-04T05:06:07+01:00 is stamped "-20210304-05-06-07" |
| GoTime.StampUsesCarriedOffset | functions/restore-backup/main.go:95-96 | The same instant given in +01:00 and in UTC gets two different stamps, "-20210304-05-06-07" and "-20210304-04-06-07": the stamp is not converted to UTC |

## Left out

- The two other Lambdas, `functions/update-ssm-parameter` and `src/check-restore-status`, each make one SDK call with no logic around it.
- The AWS SDK calls are not modelled: Step Functions `StartExecution` and DynamoDB `RestoreTableFromBackup`. The handlers' decisions are returned as values, and the SDK's own errors are not.
- Environment variables (`SOURCE_PATTERN`, `REPLACEMENT_PATTERN`, `STATE_MACHINE_ARN`, `SSM_PARAMETER_NAME`) are the fields of `StartWorkflow.Env`, not reads of the process environment.
- JSON encoding is left out: the `MarshalIndent` of the records and the `Marshal` of the workflow input. Neither can fail on these values, and both only feed logging or the SDK call.
- Logging (`fmt.Printf`, `fmt.Println`) is left out.
- The engine behind user-supplied patterns (RE2 syntax, matching and `ReplaceAllString` with back-references) is a parameter, `GoRegexp.Engine`. The fixed DynamoDB pattern is the exception: it is modelled exactly in `TableArn`.
- RFC 3339 parsing (`time.Parse`) is a parameter mapping text to an optional time. `GoTime.Valid` states the ranges a parsed time has.
- Orchestration is left out: state-machine polling, retries and concurrency.
- StartWorkflow.ParseSnsInput: the SNS entity is reduced to its message and message attributes, the only two fields read.
- LegacyRestore.ParseSnsInput: the SNS record is reduced to its message text, the only field read.
- NoticeParsing.ExtractedAtMarkers: the end of the job id is left open. The lemma states where the job id starts and that it is a slice of the message. `NoticeParsing.JobIdRunsToEnd` gives the end when no marker recurs.
- NoticeParsing.JobIdRunsToEnd: when a marker recurs after the occurrence it was split on, the job id ends just after a later occurrence. `NoticeParsing.ExtractedAtMarkers` states where the job id starts and that it is a slice of the message, but neither lemma states that later end.
