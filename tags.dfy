/**
 * The tag filter of main.py: a tag is "structural" (an internal code such as
 * `proj.123`) when it contains a period and is a single whitespace-delimited
 * word; every other tag is "descriptive" and survives, in its original order.
 */
module Tags {

  /**
   * The characters Python's argument-less `str.split()` splits on, those for
   * which `str.isspace` holds: U+0009 to U+000D, U+001C to U+0020, U+0085,
   * U+00A0, U+1680, U+2000 to U+200A, U+2028, U+2029, U+202F, U+205F, U+3000.
   */
  predicate IsSpace(c: char)
  {
    || '\t' <= c <= '\r'
    || '\U{1C}' <= c <= ' '
    || c == '\U{85}' || c == '\U{A0}' || c == '\U{1680}'
    || '\U{2000}' <= c <= '\U{200A}'
    || c == '\U{2028}' || c == '\U{2029}' || c == '\U{202F}' || c == '\U{205F}' || c == '\U{3000}'
  }

  /** Length of the maximal run of non-space characters at the front of `s`. */
  function WordLength(s: string): (n: nat)
    ensures n <= |s|
    ensures forall i :: 0 <= i < n ==> !IsSpace(s[i])
    ensures n < |s| ==> IsSpace(s[n])
  {
    if s == [] || IsSpace(s[0]) then 0 else 1 + WordLength(s[1..])
  }

  /** Python's `s.split()`: the maximal runs of non-space characters, left to right. */
  function Split(s: string): (words: seq<string>)
    ensures forall w :: w in words ==> w != [] && forall i :: 0 <= i < |w| ==> !IsSpace(w[i])
    decreases |s|
  {
    if s == [] then []
    else if IsSpace(s[0]) then Split(s[1..])
    else
      var n := WordLength(s);
      [s[..n]] + Split(s[n..])
  }

  /** `w` could be a word of `split()`: non-empty and free of whitespace. */
  predicate IsWord(w: string)
  {
    w != [] && forall i :: 0 <= i < |w| ==> !IsSpace(w[i])
  }

  /** The words `ws` laid out in order, word `k` followed by the whitespace run `gaps[k]`. */
  function Layout(ws: seq<string>, gaps: seq<string>): string
    requires |gaps| == |ws|
  {
    if ws == [] then [] else ws[0] + gaps[0] + Layout(ws[1..], gaps[1..])
  }

  /** `s` holds no character other than whitespace. */
  predicate AllSpace(s: string)
  {
    forall i :: 0 <= i < |s| ==> IsSpace(s[i])
  }

  /** Whitespace at `j` separates non-space characters at `i` and `k`. */
  predicate GapAt(s: string, i: int, j: int, k: int)
  {
    0 <= i < j < k < |s| && !IsSpace(s[i]) && IsSpace(s[j]) && !IsSpace(s[k])
  }

  /** Two non-space characters of `s` are separated by whitespace. */
  ghost predicate HasGap(s: string)
  {
    exists i, j, k :: GapAt(s, i, j, k)
  }

  /** The condition `"." in tag and len(tag.split()) == 1`. */
  predicate IsStructural(tag: string)
  {
    '.' in tag && |Split(tag)| == 1
  }

  /** `filter_tags`: keep the tags that are not structural, in order. */
  function FilterTags(tags: seq<string>): (kept: seq<string>)
    ensures forall t :: t in kept ==> t in tags && !IsStructural(t)
  {
    if tags == [] then []
    else if IsStructural(tags[0]) then FilterTags(tags[1..])
    else [tags[0]] + FilterTags(tags[1..])
  }

  /** Python's `sep.join(parts)`. */
  function Join(parts: seq<string>, sep: string): string
  {
    if parts == [] then ""
    else if |parts| == 1 then parts[0]
    else parts[0] + sep + Join(parts[1..], sep)
  }

  /** `xs` can be obtained from `ys` by deleting elements. */
  predicate IsSubsequence<T(==)>(xs: seq<T>, ys: seq<T>)
  {
    if ys == [] then xs == []
    else (xs != [] && xs[0] == ys[0] && IsSubsequence(xs[1..], ys[1..])) || IsSubsequence(xs, ys[1..])
  }

  // ---------------------------------------------------------------------
  // Whitespace splitting: an independent characterisation of the word count

  lemma {:induction false} SplitEmptyIff(s: string)
    ensures Split(s) == [] <==> AllSpace(s)
    decreases |s|
  {
    if s == [] {
    } else if IsSpace(s[0]) {
      SplitEmptyIff(s[1..]);
      assert AllSpace(s) <==> AllSpace(s[1..]) by {
        if AllSpace(s[1..]) {
          forall i | 0 <= i < |s| ensures IsSpace(s[i]) {
            if i > 0 { assert s[i] == s[1..][i - 1]; }
          }
        }
      }
    } else {
      assert !AllSpace(s);
    }
  }

  /** Leading whitespace changes neither emptiness nor gaps. */
  lemma SkipLeadingSpace(s: string)
    requires s != [] && IsSpace(s[0])
    ensures AllSpace(s) <==> AllSpace(s[1..])
    ensures HasGap(s) <==> HasGap(s[1..])
  {
    if AllSpace(s[1..]) {
      SpaceThenAllSpace(s);
    }
    if HasGap(s) {
      GapInTail(s);
    }
    if HasGap(s[1..]) {
      GapFromTail(s);
    }
  }

  lemma SpaceThenAllSpace(s: string)
    requires s != [] && IsSpace(s[0]) && AllSpace(s[1..])
    ensures AllSpace(s)
  {
    forall i | 0 < i < |s| ensures IsSpace(s[i]) {
      assert s[i] == s[1..][i - 1];
    }
  }

  lemma GapFromTail(s: string)
    requires s != [] && HasGap(s[1..])
    ensures HasGap(s)
  {
    var t := s[1..];
    var i, j, k :| GapAt(t, i, j, k);
    assert s[i + 1] == t[i] && s[j + 1] == t[j] && s[k + 1] == t[k];
    assert GapAt(s, i + 1, j + 1, k + 1);
  }

  lemma GapInTail(s: string)
    requires s != [] && IsSpace(s[0]) && HasGap(s)
    ensures HasGap(s[1..])
  {
    var t := s[1..];
    var i, j, k :| GapAt(s, i, j, k);
    assert i != 0;
    assert t[i - 1] == s[i] && t[j - 1] == s[j] && t[k - 1] == s[k];
    assert GapAt(t, i - 1, j - 1, k - 1);
  }

  /** After a leading word, a gap exists exactly when something non-space follows the word. */
  lemma GapAfterWord(s: string)
    requires s != [] && !IsSpace(s[0])
    ensures HasGap(s) <==> !AllSpace(s[WordLength(s)..])
  {
    if HasGap(s) {
      var i, j, k :| GapAt(s, i, j, k);
      GapPastWord(s, j, k);
    }
    if !AllSpace(s[WordLength(s)..]) {
      WordThenNonSpace(s);
    }
  }

  /** A space at `j` lies past the first word, so anything non-space after it does too. */
  lemma GapPastWord(s: string, j: nat, k: nat)
    requires j < k < |s| && IsSpace(s[j]) && !IsSpace(s[k])
    ensures !AllSpace(s[WordLength(s)..])
  {
    var n := WordLength(s);
    assert n <= j by {
      assert forall i :: 0 <= i < n ==> !IsSpace(s[i]);
    }
    var rest := s[n..];
    assert rest[k - n] == s[k];
    assert 0 <= k - n < |rest| && !IsSpace(rest[k - n]);
  }

  /** The first word followed by a non-space character is a gap. */
  lemma WordThenNonSpace(s: string)
    requires s != [] && !IsSpace(s[0]) && !AllSpace(s[WordLength(s)..])
    ensures HasGap(s)
  {
    var n := WordLength(s);
    var rest := s[n..];
    var k :| 0 <= k < |rest| && !IsSpace(rest[k]);
    assert s[n + k] == rest[k];
    assert GapAt(s, 0, n, n + k);
  }

  /**
   * `split()` gives back exactly the words of a layout: leading whitespace, then
   * the words separated by non-empty runs of whitespace, with trailing
   * whitespace allowed after the last word.
   */
  lemma {:induction false} SplitLayout(lead: string, ws: seq<string>, gaps: seq<string>)
    requires AllSpace(lead) && WellLaidOut(ws, gaps)
    ensures Split(lead + Layout(ws, gaps)) == ws
    decreases |ws|
  {
    SplitSkipsSpace(lead, Layout(ws, gaps));
    if ws != [] {
      var ws', gaps' := ws[1..], gaps[1..];
      var rest := Layout(ws', gaps');
      var t := gaps[0] + rest;
      assert Layout(ws, gaps) == ws[0] + t;
      assert IsWord(ws[0]) && AllSpace(gaps[0]);
      assert t == [] || IsSpace(t[0]) by {
        if gaps[0] == [] {
          assert |ws'| == 0;
        } else {
          assert t[0] == gaps[0][0];
        }
      }
      SplitTakesWord(ws[0], t);
      LaidOutTail(ws, gaps);
      SplitLayout(gaps[0], ws', gaps');
      Uncons(ws);
    }
  }

  /** Words and whitespace runs that `Layout` turns into text `split()` reads back. */
  predicate WellLaidOut(ws: seq<string>, gaps: seq<string>)
  {
    && |gaps| == |ws|
    && (forall k :: 0 <= k < |ws| ==> IsWord(ws[k]) && AllSpace(gaps[k]))
    && (forall k :: 0 <= k < |ws| - 1 ==> gaps[k] != [])
  }

  lemma LaidOutTail(ws: seq<string>, gaps: seq<string>)
    requires WellLaidOut(ws, gaps) && ws != []
    ensures WellLaidOut(ws[1..], gaps[1..])
  {
    assert forall k :: 0 <= k < |ws| - 1 ==> ws[1..][k] == ws[k + 1] && gaps[1..][k] == gaps[k + 1];
  }

  lemma Uncons<T>(s: seq<T>)
    requires s != []
    ensures [s[0]] + s[1..] == s
  {
  }

  /** Leading whitespace does not change the words. */
  lemma {:induction false} SplitSkipsSpace(g: string, t: string)
    requires AllSpace(g)
    ensures Split(g + t) == Split(t)
  {
    if g == [] {
      assert g + t == t;
    } else {
      assert (g + t)[1..] == g[1..] + t;
      assert IsSpace((g + t)[0]);
      assert AllSpace(g[1..]);
      SplitSkipsSpace(g[1..], t);
    }
  }

  /** A word followed by whitespace or the end of the text is the first word. */
  lemma SplitTakesWord(w: string, t: string)
    requires IsWord(w) && (t == [] || IsSpace(t[0]))
    ensures Split(w + t) == [w] + Split(t)
  {
    var s := w + t;
    var n := WordLength(s);
    assert forall i :: 0 <= i < |w| ==> s[i] == w[i];
    assert |w| < |s| ==> s[|w|] == t[0];
    assert n == |w|;
    assert s[..n] == w && s[n..] == t;
  }

  /** A string is one word exactly when it has a non-space character and no gap. */
  lemma {:induction false} SplitSingleIff(s: string)
    ensures |Split(s)| == 1 <==> !AllSpace(s) && !HasGap(s)
    decreases |s|
  {
    if s == [] {
    } else if IsSpace(s[0]) {
      SplitSingleIff(s[1..]);
      SkipLeadingSpace(s);
    } else {
      var n := WordLength(s);
      SplitEmptyIff(s[n..]);
      GapAfterWord(s);
      assert !AllSpace(s) by { assert !IsSpace(s[0]); }
    }
  }

  /** Tag-level form of the rule: dropped exactly when it has a period and no inner whitespace gap. */
  lemma StructuralIff(tag: string)
    ensures IsStructural(tag) <==> '.' in tag && !HasGap(tag)
  {
    SplitSingleIff(tag);
    if '.' in tag {
      var i :| 0 <= i < |tag| && tag[i] == '.';
      assert !IsSpace(tag[i]);
    }
  }

  // ---------------------------------------------------------------------
  // filter_tags

  /** Survivors keep their relative order: the result is a subsequence of the input. */
  lemma {:induction false} FilterIsSubsequence(tags: seq<string>)
    ensures IsSubsequence(FilterTags(tags), tags)
  {
    if tags != [] {
      FilterIsSubsequence(tags[1..]);
      if !IsStructural(tags[0]) {
        assert FilterTags(tags)[1..] == FilterTags(tags[1..]);
      }
    }
  }

  /** No tag is added or dropped beyond the rule: each descriptive tag keeps its multiplicity, structural ones vanish. */
  lemma {:induction false} FilterCounts(tags: seq<string>, t: string)
    ensures multiset(FilterTags(tags))[t] == if IsStructural(t) then 0 else multiset(tags)[t]
  {
    if tags != [] {
      FilterCounts(tags[1..], t);
      assert tags == [tags[0]] + tags[1..];
    }
  }

  /** A tag survives exactly when it occurs in the input and is not structural. */
  lemma FilterMembership(tags: seq<string>, t: string)
    ensures t in FilterTags(tags) <==> t in tags && !IsStructural(t)
  {
    FilterCounts(tags, t);
  }

  /** Filtering an already-filtered list changes nothing. */
  lemma {:induction false} FilterIdempotent(tags: seq<string>)
    ensures FilterTags(FilterTags(tags)) == FilterTags(tags)
  {
    if tags != [] {
      FilterIdempotent(tags[1..]);
      if !IsStructural(tags[0]) {
        var r := FilterTags(tags[1..]);
        assert ([tags[0]] + r)[1..] == r;
      }
    }
  }

  // ---------------------------------------------------------------------
  // join

  /** Joining one more part appends the separator and the part. */
  lemma {:induction false} JoinSnoc(parts: seq<string>, p: string, sep: string)
    ensures Join(parts + [p], sep) == if parts == [] then p else Join(parts, sep) + sep + p
  {
    if |parts| > 1 {
      assert (parts + [p])[1..] == parts[1..] + [p];
      JoinSnoc(parts[1..], p, sep);
    } else if |parts| == 1 {
      assert (parts + [p])[1..] == [p];
    }
  }

  /** Labels are compared as strings: one tag `a, b` and two tags `a`, `b` share a label. */
  lemma JoinConflates()
    ensures Join(["a, b"], ", ") == Join(["a", "b"], ", ")
  {
    assert ["a", "b"][1..] == ["b"];
  }

  // ---------------------------------------------------------------------
  // The examples documented for the filter

  /** A tag without any whitespace is structural exactly when it has a period. */
  lemma WordStructuralIff(tag: string)
    requires forall i :: 0 <= i < |tag| ==> !IsSpace(tag[i])
    ensures IsStructural(tag) <==> '.' in tag
  {
    StructuralIff(tag);
  }

  /**
   * A tag with whitespace somewhere between two non-space characters is several
   * words, so it is kept, however wide the gap and whether or not it holds '.'.
   */
  lemma MultiWordIsDescriptive(tag: string, i: nat, j: nat, k: nat)
    requires GapAt(tag, i, j, k)
    ensures !IsStructural(tag)
  {
    StructuralIff(tag);
  }

  /** A structural tag followed by a descriptive one filters down to the descriptive one. */
  lemma FilterPair(code: string, phrase: string)
    requires IsStructural(code) && !IsStructural(phrase)
    ensures FilterTags([code, phrase]) == [phrase]
  {
    assert [code, phrase][1..] == [phrase];
    assert |[phrase][1..]| == 0;
    assert FilterTags([phrase]) == [phrase] + FilterTags([]);
  }

  lemma CodeIsStructural()
    ensures IsStructural("proj.42")
  {
    var code: string := "proj.42";
    assert code == ['p', 'r', 'o', 'j', '.', '4', '2'];
    WordStructuralIff(code);
    assert code[4] == '.';
  }

  lemma PhraseIsDescriptive()
    ensures !IsStructural("design review")
  {
    var phrase: string := "design review";
    assert phrase[5] == 'n' && phrase[6] == ' ' && phrase[7] == 'r';
    MultiWordIsDescriptive(phrase, 5, 6, 7);
  }

  lemma FilterDropsCodeKeepsPhrase()
    ensures FilterTags(["proj.42", "design review"]) == ["design review"]
  {
    CodeIsStructural();
    PhraseIsDescriptive();
    FilterPair("proj.42", "design review");
  }

  lemma FilterDropsDottedWord()
    ensures FilterTags(["a.b.c"]) == []
  {
    var code: string := "a.b.c";
    assert code == ['a', '.', 'b', '.', 'c'];
    WordStructuralIff(code);
    assert code[1] == '.';
    assert |[code][1..]| == 0;
  }

  lemma FilterKeepsEmptyTag()
    ensures FilterTags(["", "x"]) == ["", "x"]
  {
    assert !IsStructural("") && !IsStructural("x");
    assert ["", "x"][1..] == ["x"];
    assert |["x"][1..]| == 0;
  }
}
