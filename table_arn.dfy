/**
 * The fixed pattern `(?i)^arn:aws:dynamodb:.*:.*:table/.*` that decides
 * whether a backed-up resource is a DynamoDB table, modelled exactly as
 * Go's RE2 engine reads it:
 *  - `^` anchors the match at the start of the text (no multi-line flag);
 *  - `.` matches any character except a newline;
 *  - `(?i)` compares letters by Unicode simple case folding, under which
 *    's' also matches U+017F (LATIN SMALL LETTER LONG S) and 'k' matches
 *    U+212A (KELVIN SIGN);
 *  - the trailing `.*` may match the empty string, so nothing is required
 *    after "table/".
 */
module TableArn {

  const Prefix: string := "arn:aws:dynamodb:"
  const TableWord: string := "table/"

  /** Text character `c` matches pattern character `p` (a lower-case letter or punctuation) under `(?i)`. */
  predicate FoldsTo(c: char, p: char) {
    || c == p
    || ('a' <= p <= 'z' && c as int == p as int - 32)
    || (p == 's' && c == '\U{017F}')
    || (p == 'k' && c == '\U{212A}')
  }

  /** `s` holds, from position `i`, a case-folded copy of the literal `lit`. */
  predicate FoldedAt(s: string, lit: string, i: nat) {
    i + |lit| <= |s| && forall j :: 0 <= j < |lit| ==> FoldsTo(s[i + j], lit[j])
  }

  /** No newline in `s[i..q]`. */
  predicate LineFree(s: string, i: nat, q: nat) {
    forall k :: i <= k < q && k < |s| ==> s[k] != '\n'
  }

  /** A ':' that is followed by a case-folded "table/". */
  predicate TableColonAt(s: string, q: nat) {
    q < |s| && s[q] == ':' && FoldedAt(s, TableWord, q + 1)
  }

  /**
   * The language of the pattern: a case-folded "arn:aws:dynamodb:", then
   * `.*`, ':', `.*`, ':', a case-folded "table/" and anything at all,
   * where the two `.*` contain no newline.
   */
  ghost predicate MatchesShape(s: string) {
    && FoldedAt(s, Prefix, 0)
    && exists p: nat, q: nat ::
         |Prefix| <= p < q && TableColonAt(s, q) && s[p] == ':' && LineFree(s, |Prefix|, q)
  }

  /**
   * Scanning from `i`, with `seenColon` recording a ':' already passed
   * since the prefix: a ':' + "table/" is reached before any newline, and
   * some ':' precedes it.
   */
  predicate ShapeFrom(s: string, i: nat, seenColon: bool)
    decreases |s| - i
  {
    && i < |s|
    && s[i] != '\n'
    && ((seenColon && TableColonAt(s, i)) || ShapeFrom(s, i + 1, seenColon || s[i] == ':'))
  }

  /** The decision `regexp.MatchString` makes for the fixed pattern. */
  predicate IsDynamoTableArn(s: string) {
    FoldedAt(s, Prefix, 0) && ShapeFrom(s, |Prefix|, false)
  }

  /** A ':' somewhere in `s[i..q]`. */
  ghost predicate ColonBetween(s: string, i: nat, q: nat) {
    exists p: nat :: i <= p < q && p < |s| && s[p] == ':'
  }

  /** What `ShapeFrom(s, i, seenColon)` is meant to decide. */
  ghost predicate ShapeAfter(s: string, i: nat, seenColon: bool) {
    exists q: nat :: i <= q && TableColonAt(s, q) && LineFree(s, i, q) && (seenColon || ColonBetween(s, i, q))
  }

  lemma {:induction false} ShapeFromSound(s: string, i: nat, seenColon: bool)
    requires ShapeFrom(s, i, seenColon)
    ensures ShapeAfter(s, i, seenColon)
    decreases |s| - i
  {
    if seenColon && TableColonAt(s, i) {
      assert LineFree(s, i, i);
    } else {
      var seen' := seenColon || s[i] == ':';
      ShapeFromSound(s, i + 1, seen');
      var q: nat :| i + 1 <= q && TableColonAt(s, q) && LineFree(s, i + 1, q) && (seen' || ColonBetween(s, i + 1, q));
      assert LineFree(s, i, q);
      if !seenColon {
        if s[i] == ':' {
          assert ColonBetween(s, i, q);
        } else {
          var p: nat :| i + 1 <= p < q && p < |s| && s[p] == ':';
          assert ColonBetween(s, i, q);
        }
      }
    }
  }

  lemma {:induction false} ShapeFromComplete(s: string, i: nat, seenColon: bool)
    requires ShapeAfter(s, i, seenColon)
    ensures ShapeFrom(s, i, seenColon)
    decreases |s| - i
  {
    var q: nat :| i <= q && TableColonAt(s, q) && LineFree(s, i, q) && (seenColon || ColonBetween(s, i, q));
    if q > i {
      assert s[i] != '\n';
      var seen' := seenColon || s[i] == ':';
      assert LineFree(s, i + 1, q);
      if !seen' {
        var p: nat :| i <= p < q && p < |s| && s[p] == ':';
        assert ColonBetween(s, i + 1, q);
      }
      ShapeFromComplete(s, i + 1, seen');
    }
  }

  /** The scan decides exactly the language of the pattern. */
  lemma IsDynamoTableArnIff(s: string)
    ensures IsDynamoTableArn(s) <==> MatchesShape(s)
  {
    if IsDynamoTableArn(s) {
      ShapeFromSound(s, |Prefix|, false);
      var q: nat :| |Prefix| <= q && TableColonAt(s, q) && LineFree(s, |Prefix|, q) && ColonBetween(s, |Prefix|, q);
      var p: nat :| |Prefix| <= p < q && p < |s| && s[p] == ':';
      assert MatchesShape(s);
    }
    if MatchesShape(s) {
      var p: nat, q: nat :| |Prefix| <= p < q && TableColonAt(s, q) && s[p] == ':' && LineFree(s, |Prefix|, q);
      assert ColonBetween(s, |Prefix|, q);
      ShapeFromComplete(s, |Prefix|, false);
    }
  }

  /**
   * Every ARN of the form prefix + region + ':' + account + ':' + "table/" + rest
   * is accepted, whatever the letter case of the fixed words, as long as
   * region and account hold no newline.
   */
  lemma AcceptsTableArn(prefix: string, region: string, account: string, word: string, rest: string)
    requires |prefix| == |Prefix| && FoldedAt(prefix, Prefix, 0)
    requires |word| == |TableWord| && FoldedAt(word, TableWord, 0)
    requires '\n' !in region && '\n' !in account
    ensures IsDynamoTableArn(prefix + region + ":" + account + ":" + word + rest)
  {
    var head := prefix + region + ":" + account + ":";
    var s := head + word + rest;
    var p := |prefix| + |region|;
    var q := p + 1 + |account|;
    assert s[p] == ':';
    assert s[q] == ':';
    forall j | 0 <= j < |Prefix|
      ensures FoldsTo(s[0 + j], Prefix[j])
    {
      assert s[j] == prefix[j];
      assert FoldsTo(prefix[0 + j], Prefix[j]);
    }
    assert FoldedAt(s, Prefix, 0);
    forall j | 0 <= j < |word|
      ensures FoldsTo(s[q + 1 + j], TableWord[j])
    {
      assert s[q + 1 + j] == (head + word)[|head| + j] == word[j];
      assert FoldsTo(word[0 + j], TableWord[j]);
    }
    assert FoldedAt(s, TableWord, q + 1);
    forall k | |Prefix| <= k < q
      ensures s[k] != '\n'
    {
      if k < p {
        assert s[k] == region[k - |prefix|];
      } else if p < k {
        assert s[k] == account[k - p - 1];
      }
    }
    assert |Prefix| <= p < q && TableColonAt(s, q) && s[p] == ':' && LineFree(s, |Prefix|, q);
    IsDynamoTableArnIff(s);
  }

  /** Text that does not start with a case-folded "arn:aws:dynamodb:" is rejected, whatever follows. */
  lemma RejectsOtherPrefix(s: string)
    requires !FoldedAt(s, Prefix, 0)
    ensures !IsDynamoTableArn(s) && !MatchesShape(s)
  {
  }

  /** A newline before the ":table/" separator makes the ARN fail the pattern. */
  lemma RejectsNewlineBeforeTable(s: string, n: nat)
    requires |Prefix| <= n < |s| && s[n] == '\n'
    requires forall q: nat :: |Prefix| <= q < n ==> !TableColonAt(s, q)
    ensures !IsDynamoTableArn(s)
  {
    IsDynamoTableArnIff(s);
  }
}
