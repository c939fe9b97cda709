/**
 * Removal of HTML-like tags from a description, as done by replacing every
 * match of the global regular expression `<[^>]*>` with the empty string.
 *
 * The regular expression engine scans left to right. At a `<` it tries to
 * match; since `[^>]*` cannot cross a `>`, the match ends at the FIRST `>`
 * after that `<`, and the scan resumes behind it. A `<` with no `>` anywhere
 * after it matches nothing and is kept, and so is a `>` that closes no tag.
 *
 * The scan is written over positions of the original string, from a start
 * position `i` to its end.
 */
module Tags {

  /** Position of the first `c` in `s` at or after `from`, or `|s|` when there is none. */
  function Find(s: string, c: char, from: nat): (k: nat)
    requires from <= |s|
    ensures from <= k <= |s|
    ensures k < |s| ==> s[k] == c
    decreases |s| - from
  {
    if from == |s| then |s| else if s[from] == c then from else Find(s, c, from + 1)
  }

  /** No `c` lies between `from` and the position `Find` reports. */
  lemma {:induction false} FindIsFirst(s: string, c: char, from: nat)
    requires from <= |s|
    ensures forall i :: from <= i < Find(s, c, from) ==> s[i] != c
    decreases |s| - from
  {
    if from < |s| && s[from] != c {
      FindIsFirst(s, c, from + 1);
    }
  }

  /** A `c` at `k` with none before it, from `from` on, is the one `Find` reports. */
  lemma {:induction false} FindExact(s: string, c: char, from: nat, k: nat)
    requires from <= k < |s| && s[k] == c
    requires forall i :: from <= i < k ==> s[i] != c
    ensures Find(s, c, from) == k
    decreases k - from
  {
    if from < k {
      FindExact(s, c, from + 1, k);
    }
  }

  /** The left-to-right scan of `s.replace(/<[^>]*>/g, '')` from position `i` on. */
  function StripFrom(s: string, i: nat): (r: string)
    requires i <= |s|
    ensures |r| <= |s| - i
    decreases |s| - i
  {
    if i == |s| then []
    else if s[i] == '<' && Find(s, '>', i) < |s| then StripFrom(s, Find(s, '>', i) + 1)
    else [s[i]] + StripFrom(s, i + 1)
  }

  /** A character that does not occur from position `i` on is not produced by the scan. */
  lemma {:induction false} StripFromKeepsAbsent(s: string, i: nat, c: char)
    requires i <= |s|
    requires forall j :: i <= j < |s| ==> s[j] != c
    ensures c !in StripFrom(s, i)
    decreases |s| - i
  {
    if i == |s| {
    } else if s[i] == '<' && Find(s, '>', i) < |s| {
      StripFromKeepsAbsent(s, Find(s, '>', i) + 1, c);
    } else {
      StripFromKeepsAbsent(s, i + 1, c);
    }
  }

  /** `s.replace(/<[^>]*>/g, '')`: never longer than `s`. */
  function StripTags(s: string): (r: string)
    ensures |r| <= |s|
  {
    StripFrom(s, 0)
  }

  /**
   * `a` is what remains of `s[i..]` after deleting some of its characters:
   * each character of `s[i..]` is either deleted or kept as the next
   * character of `a`, in order.
   */
  predicate SubseqFrom(a: string, s: string, i: nat)
    requires i <= |s|
    decreases |s| - i
  {
    if i == |s| then a == []
    else SubseqFrom(a, s, i + 1) || (a != [] && a[0] == s[i] && SubseqFrom(a[1..], s, i + 1))
  }

  /** Deleting from a later suffix is also deleting from an earlier one. */
  lemma {:induction false} SubseqFromEarlier(a: string, s: string, i: nat, j: nat)
    requires i <= j <= |s| && SubseqFrom(a, s, j)
    ensures SubseqFrom(a, s, i)
    decreases j - i
  {
    if i < j {
      SubseqFromEarlier(a, s, i + 1, j);
    }
  }

  /** The scan only deletes characters: what it keeps, it keeps in order. */
  lemma {:induction false} StripFromDeletesOnly(s: string, i: nat)
    requires i <= |s|
    ensures SubseqFrom(StripFrom(s, i), s, i)
    decreases |s| - i
  {
    if i == |s| {
    } else if s[i] == '<' && Find(s, '>', i) < |s| {
      var e := Find(s, '>', i);
      StripFromDeletesOnly(s, e + 1);
      SubseqFromEarlier(StripFrom(s, e + 1), s, i, e + 1);
    } else {
      var rest := StripFrom(s, i + 1);
      StripFromDeletesOnly(s, i + 1);
      assert ([s[i]] + rest)[1..] == rest;
    }
  }

  /**
   * Stripping only removes characters: the result is the input with some
   * characters deleted, the others kept in their order; in particular every
   * character of the result occurs in the input.
   */
  lemma StripTagsKeepsCharacters(s: string)
    ensures SubseqFrom(StripTags(s), s, 0)
    ensures forall c :: c in StripTags(s) ==> c in s
  {
    StripFromDeletesOnly(s, 0);
    forall c | c !in s
      ensures c !in StripTags(s)
    {
      StripFromKeepsAbsent(s, 0, c);
    }
  }

  /**
   * A string in which the regular expression has no match: no `<` is
   * followed, anywhere later, by a `>`.
   */
  predicate TagFree(s: string) {
    TagFreeFrom(s, 0)
  }

  /** No `<` at or after position `i` of `s` is followed, anywhere later, by a `>`. */
  predicate TagFreeFrom(s: string, i: nat) {
    forall a, b :: i <= a < b < |s| && s[a] == '<' ==> s[b] != '>'
  }

  /**
   * What remains of the piece `s[i..e]` in front of the `>` at `e`: if it
   * holds a `<`, everything from its first `<` on is a tag that ends at that
   * `>`, and both go; if it holds none, the `>` is stray and stays.
   */
  function BeforeClose(s: string, i: nat, e: nat): (r: string)
    requires i <= e <= |s|
  {
    var k := Find(s, '<', i);
    if k < e then s[i..k] else s[i..e] + ">"
  }

  /**
   * Reference formulation of the same removal, cut at every `>` instead of
   * scanning for `<`: each piece up to a `>` is reduced by `BeforeClose`, and
   * the text after the last `>` is kept whole.
   */
  function SegmentsFrom(s: string, i: nat): (r: string)
    requires i <= |s|
    decreases |s| - i
  {
    var e := Find(s, '>', i);
    if e == |s| then s[i..] else BeforeClose(s, i, e) + SegmentsFrom(s, e + 1)
  }

  function StripBySegments(s: string): (r: string) {
    SegmentsFrom(s, 0)
  }

  /** Text with no match is left unchanged by the scan. */
  lemma {:induction false} TagFreeFromUnchanged(s: string, i: nat)
    requires i <= |s| && TagFreeFrom(s, i)
    ensures StripFrom(s, i) == s[i..]
    decreases |s| - i
  {
    if i < |s| {
      if s[i] == '<' && Find(s, '>', i) < |s| {
        assert false;
      } else {
        TagFreeFromUnchanged(s, i + 1);
        assert s[i..] == [s[i]] + s[i + 1..];
      }
    }
  }

  /** A string with no match is left unchanged. */
  lemma TagFreeUnchanged(s: string)
    requires TagFree(s)
    ensures StripTags(s) == s
  {
    TagFreeFromUnchanged(s, 0);
  }

  /** Input without any `<` is returned unchanged. */
  lemma NoOpenBracketUnchanged(s: string)
    requires '<' !in s
    ensures StripTags(s) == s
  {
    TagFreeUnchanged(s);
  }

  /** What the scan produces from position `i` on has no `<` followed by a `>`. */
  lemma {:induction false} StripFromTagFree(s: string, i: nat)
    requires i <= |s|
    ensures TagFree(StripFrom(s, i))
    decreases |s| - i
  {
    if i == |s| {
    } else if s[i] == '<' && Find(s, '>', i) < |s| {
      StripFromTagFree(s, Find(s, '>', i) + 1);
    } else {
      var rest := StripFrom(s, i + 1);
      StripFromTagFree(s, i + 1);
      var r := [s[i]] + rest;
      forall a, b | 0 <= a < b < |r| && r[a] == '<'
        ensures r[b] != '>'
      {
        if a == 0 {
          // the `<` at `i` was kept, so no `>` follows it in `s`,
          // and the scan never introduces one
          FindIsFirst(s, '>', i);
          StripFromKeepsAbsent(s, i + 1, '>');
          assert r[b] == rest[b - 1];
        } else {
          assert r[a] == rest[a - 1] && r[b] == rest[b - 1];
        }
      }
    }
  }

  /** After stripping, every `<` that survives has no `>` anywhere after it. */
  lemma StripTagsTagFree(s: string)
    ensures TagFree(StripTags(s))
  {
    StripFromTagFree(s, 0);
  }

  /** Stripping twice is the same as stripping once. */
  lemma StripTagsIdempotent(s: string)
    ensures StripTags(StripTags(s)) == StripTags(s)
  {
    StripTagsTagFree(s);
    TagFreeUnchanged(StripTags(s));
  }

  /** A leading character that is not `<` stays in front of its piece. */
  lemma BeforeCloseTail(s: string, i: nat, e: nat)
    requires i < e <= |s| && s[i] != '<'
    ensures BeforeClose(s, i, e) == [s[i]] + BeforeClose(s, i + 1, e)
  {
    var k := Find(s, '<', i + 1);
    assert Find(s, '<', i) == k;
    if k < e {
      assert s[i..k] == [s[i]] + s[i + 1..k];
    } else {
      assert s[i..e] + ">" == [s[i]] + (s[i + 1..e] + ">");
    }
  }

  /** The reference formulation cuts at the first `>` from `i` on. */
  lemma SegmentsCut(s: string, i: nat)
    requires i <= |s| && Find(s, '>', i) < |s|
    ensures SegmentsFrom(s, i) == BeforeClose(s, i, Find(s, '>', i)) + SegmentsFrom(s, Find(s, '>', i) + 1)
  {
  }

  /** Before the first `>`, a leading character that is not `<` stays in front. */
  lemma SegmentsTailCut(s: string, i: nat, e: nat)
    requires i < e < |s| && s[i] != '<'
    requires Find(s, '>', i) == e && Find(s, '>', i + 1) == e
    ensures SegmentsFrom(s, i) == [s[i]] + SegmentsFrom(s, i + 1)
  {
    SegmentsCut(s, i);
    SegmentsCut(s, i + 1);
    BeforeCloseTail(s, i, e);
    PrependBeforeRest(SegmentsFrom(s, i), SegmentsFrom(s, i + 1), s[i],
                      BeforeClose(s, i, e), BeforeClose(s, i + 1, e), SegmentsFrom(s, e + 1));
  }

  /** Regrouping for `SegmentsTailCut`: a character in front of a piece is in front of the whole. */
  lemma PrependBeforeRest(whole: string, tail: string, c: char, piece: string, pieceTail: string, rest: string)
    requires whole == piece + rest && tail == pieceTail + rest && piece == [c] + pieceTail
    ensures whole == [c] + tail
  {
    assert ([c] + pieceTail) + rest == [c] + (pieceTail + rest);
  }

  /** A leading character that is neither `<` nor `>` is kept by the reference formulation. */
  lemma SegmentsTail(s: string, i: nat)
    requires i < |s| && s[i] != '<' && s[i] != '>'
    ensures SegmentsFrom(s, i) == [s[i]] + SegmentsFrom(s, i + 1)
  {
    var e := Find(s, '>', i + 1);
    assert Find(s, '>', i) == e;
    if e == |s| {
      assert SegmentsFrom(s, i) == s[i..] && SegmentsFrom(s, i + 1) == s[i + 1..];
      assert s[i..] == [s[i]] + s[i + 1..];
    } else {
      SegmentsTailCut(s, i, e);
    }
  }

  /** The scan drops a complete tag starting at `i`. */
  lemma StripFromDropsTag(s: string, i: nat)
    requires i < |s| && s[i] == '<' && Find(s, '>', i) < |s|
    ensures StripFrom(s, i) == StripFrom(s, Find(s, '>', i) + 1)
  {
  }

  /** A piece that starts with `<` is a tag, and nothing of it remains. */
  lemma BeforeCloseOpen(s: string, i: nat, e: nat)
    requires i < e <= |s| && s[i] == '<'
    ensures BeforeClose(s, i, e) == []
  {
    assert Find(s, '<', i) == i;
  }

  /** Regrouping for `SegmentsLeadingTag`: an empty piece in front changes nothing. */
  lemma EmptyBeforeRest(whole: string, piece: string, rest: string)
    requires whole == piece + rest && piece == []
    ensures whole == rest
  {
    assert [] + rest == rest;
  }

  /** A complete tag starting at `i` is dropped by the reference formulation too. */
  lemma SegmentsLeadingTag(s: string, i: nat)
    requires i < |s| && s[i] == '<' && Find(s, '>', i) < |s|
    ensures SegmentsFrom(s, i) == SegmentsFrom(s, Find(s, '>', i) + 1)
  {
    var e := Find(s, '>', i);
    SegmentsCut(s, i);
    BeforeCloseOpen(s, i, e);
    EmptyBeforeRest(SegmentsFrom(s, i), BeforeClose(s, i, e), SegmentsFrom(s, e + 1));
  }

  /** A `>` at `i` closes no tag, and the reference formulation keeps it. */
  lemma SegmentsLeadingClose(s: string, i: nat)
    requires i < |s| && s[i] == '>'
    ensures SegmentsFrom(s, i) == [s[i]] + SegmentsFrom(s, i + 1)
  {
    var rest := SegmentsFrom(s, i + 1);
    assert Find(s, '>', i) == i;
    assert BeforeClose(s, i, i) == ">";
    assert SegmentsFrom(s, i) == ">" + rest;
  }

  /** Without a `>` from `i` on, both formulations keep the rest of the text. */
  lemma NoCloseUnchanged(s: string, i: nat)
    requires i <= |s| && Find(s, '>', i) == |s|
    ensures StripFrom(s, i) == s[i..] && SegmentsFrom(s, i) == s[i..]
  {
    FindIsFirst(s, '>', i);
    assert TagFreeFrom(s, i);
    TagFreeFromUnchanged(s, i);
  }

  /** `a` ends with `b`. */
  predicate EndsWith(a: string, b: string) {
    |b| <= |a| && a[|a| - |b|..] == b
  }

  /**
   * Once no `>` is left from `i` on, the scan from any earlier position
   * reaches `i` (no tag can span it) and ends with the scan from `i`.
   */
  lemma {:induction false} StripFromEndsWith(s: string, k: nat, i: nat)
    requires k <= i <= |s| && Find(s, '>', i) == |s|
    ensures EndsWith(StripFrom(s, k), StripFrom(s, i))
    decreases i - k
  {
    var tail := StripFrom(s, i);
    if k == i {
      assert StripFrom(s, k)[|StripFrom(s, k)| - |tail|..] == tail;
    } else if s[k] == '<' && Find(s, '>', k) < |s| {
      var e := Find(s, '>', k);
      if e >= i {
        FindIsFirst(s, '>', i);
        assert false;
      }
      StripFromEndsWith(s, e + 1, i);
    } else {
      var rest := StripFrom(s, k + 1);
      StripFromEndsWith(s, k + 1, i);
      assert ([s[k]] + rest)[|rest| + 1 - |tail|..] == rest[|rest| - |tail|..];
    }
  }

  /**
   * When no `>` lies at or after position `i`, stripping keeps all of
   * `s[i..]` at the end of its result: an unclosed `<` and everything after
   * it survive.
   */
  lemma StripTagsKeepsUnclosedTail(s: string, i: nat)
    requires i <= |s|
    requires forall j :: i <= j < |s| ==> s[j] != '>'
    ensures EndsWith(StripTags(s), s[i..])
  {
    assert Find(s, '>', i) == |s|;
    NoCloseUnchanged(s, i);
    StripFromEndsWith(s, 0, i);
  }

  /** The scan keeps a character that does not open a complete tag. */
  lemma StripFromKeeps(s: string, i: nat)
    requires i < |s| && !(s[i] == '<' && Find(s, '>', i) < |s|)
    ensures StripFrom(s, i) == [s[i]] + StripFrom(s, i + 1)
  {
  }

  /** The scan and the reference formulation agree from any position on. */
  lemma {:induction false} StripFromBySegments(s: string, i: nat)
    requires i <= |s|
    ensures StripFrom(s, i) == SegmentsFrom(s, i)
    decreases |s| - i
  {
    var e := Find(s, '>', i);
    if e == |s| {
      NoCloseUnchanged(s, i);
    } else if s[i] == '<' {
      StripFromDropsTag(s, i);
      SegmentsLeadingTag(s, i);
      StripFromBySegments(s, e + 1);
    } else {
      StripFromKeeps(s, i);
      if s[i] == '>' {
        SegmentsLeadingClose(s, i);
      } else {
        SegmentsTail(s, i);
      }
      StripFromBySegments(s, i + 1);
    }
  }

  /** The left-to-right scan agrees with the segment-wise reference formulation. */
  lemma StripTagsBySegments(s: string)
    ensures StripTags(s) == StripBySegments(s)
  {
    StripFromBySegments(s, 0);
  }
}
