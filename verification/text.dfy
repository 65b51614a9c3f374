/** The string tools: the collapsing, backslash-escaping tokenizer `split`
    and the asterisk matcher `matches_pattern`. */
module Text {
  import opened Errors

  /** The characters a tokenizer pass keeps, in order: a backslash followed by
      any character keeps that character, an unescaped delimiter keeps
      nothing, every other character (a final lone backslash included) keeps
      itself. */
  function Literal(s: string, ch: char): string
    decreases |s|
  {
    if |s| == 0 then ""
    else if s[0] == '\\' && |s| > 1 then [s[1]] + Literal(s[2..], ch)
    else if s[0] == ch then Literal(s[1..], ch)
    else [s[0]] + Literal(s[1..], ch)
  }

  /** `s` with every occurrence of `ch` removed. */
  function Without(s: string, ch: char): (r: string)
    ensures ch !in r
    ensures |r| <= |s|
  {
    if |s| == 0 then ""
    else if s[0] == ch then Without(s[1..], ch)
    else [s[0]] + Without(s[1..], ch)
  }

  function Concat(chunks: seq<string>): string {
    if |chunks| == 0 then "" else chunks[0] + Concat(chunks[1..])
  }

  lemma ConcatCons(c: string, rest: seq<string>)
    ensures Concat([c] + rest) == c + Concat(rest)
  {
    assert ([c] + rest)[1..] == rest;
  }

  predicate NoEmptyChunk(chunks: seq<string>) {
    forall k :: 0 <= k < |chunks| ==> chunks[k] != ""
  }

  // ---------------------------------------------------------------------
  // split, as written

  /** The tokenizer loop exactly as the source runs it, from position 0 of
      `s` with pending chunk `cur` and the `waiting_next` flag. An escape
      appends to `cur` without clearing `waiting`, so a delimiter that
      follows an escaped character right after a pushed chunk is ignored. */
  function SplitLoopAsWritten(s: string, ch: char, cur: string, waiting: bool): seq<string>
    decreases |s|
  {
    if |s| == 0 then (if |cur| > 0 then [cur] else [])
    else if s[0] == '\\' && |s| > 1 then SplitLoopAsWritten(s[2..], ch, cur + [s[1]], waiting)
    else if s[0] == ch then
      if !waiting && |cur| > 0 then [cur] + SplitLoopAsWritten(s[1..], ch, "", true)
      else SplitLoopAsWritten(s[1..], ch, cur, waiting)
    else SplitLoopAsWritten(s[1..], ch, cur + [s[0]], false)
  }

  /** The source's `split`. Like the corrected tokenizer it never yields an
      empty chunk and loses no kept character; it may cut them differently
      (see SplitAsWrittenMergesTokens). */
  function SplitAsWritten(s: string, ch: char): (r: seq<string>)
    ensures NoEmptyChunk(r)
    ensures Concat(r) == Literal(s, ch)
  {
    SplitAsWrittenNoEmpty(s, ch, "", false);
    SplitAsWrittenConcat(s, ch, "", false);
    assert "" + Literal(s, ch) == Literal(s, ch);
    SplitLoopAsWritten(s, ch, "", false)
  }

  // ---------------------------------------------------------------------
  // split, corrected: an escaped character ends the wait for the next
  // non-delimiter like any other collected character

  function SplitLoop(s: string, ch: char, cur: string): (r: seq<string>)
    ensures NoEmptyChunk(r)
    decreases |s|
  {
    if |s| == 0 then (if |cur| > 0 then [cur] else [])
    else if s[0] == '\\' && |s| > 1 then SplitLoop(s[2..], ch, cur + [s[1]])
    else if s[0] == ch then
      if |cur| > 0 then [cur] + SplitLoop(s[1..], ch, "")
      else SplitLoop(s[1..], ch, "")
    else SplitLoop(s[1..], ch, cur + [s[0]])
  }

  /** Splits `s` at runs of `ch`, honouring backslash escapes. Never yields an
      empty chunk; yields at least one chunk when `s` starts or ends with a
      character other than `ch`. */
  function Split(s: string, ch: char): (r: seq<string>)
    ensures NoEmptyChunk(r)
    ensures Concat(r) == Literal(s, ch)
    ensures |s| > 0 && (s[0] != ch || s[|s| - 1] != ch) ==> |r| > 0
  {
    SplitConcat(s, ch, "");
    LiteralNonEmpty(s, ch);
    SplitLoop(s, ch, "")
  }

  /** One escape: the escaped character moves into the pending chunk and
      is kept. */
  lemma LiteralEscape(s: string, ch: char)
    requires |s| > 1 && s[0] == '\\'
    ensures Literal(s, ch) == [s[1]] + Literal(s[2..], ch)
  {
  }

  /** One plain character: kept. */
  lemma LiteralPlain(s: string, ch: char)
    requires |s| > 0 && !(s[0] == '\\' && |s| > 1) && s[0] != ch
    ensures Literal(s, ch) == [s[0]] + Literal(s[1..], ch)
  {
  }

  /** One delimiter: dropped. */
  lemma LiteralDelimiter(s: string, ch: char)
    requires |s| > 0 && !(s[0] == '\\' && |s| > 1) && s[0] == ch
    ensures Literal(s, ch) == Literal(s[1..], ch)
  {
  }

  /** Moving a kept character into the pending chunk keeps the accounting. */
  lemma Shifted(cur: string, x: char, rest: string, chunks: seq<string>, whole: string)
    requires Concat(chunks) == cur + [x] + rest
    requires whole == [x] + rest
    ensures Concat(chunks) == cur + whole
  {
    assert cur + [x] + rest == cur + ([x] + rest);
  }

  /** Closing a chunk at a delimiter keeps the accounting. */
  lemma Closed(cur: string, chunks: seq<string>, rest: string)
    requires Concat(chunks) == "" + rest
    ensures Concat([cur] + chunks) == cur + rest
  {
    ConcatCons(cur, chunks);
    assert "" + rest == rest;
  }

  lemma {:induction false} SplitConcat(s: string, ch: char, cur: string)
    ensures Concat(SplitLoop(s, ch, cur)) == cur + Literal(s, ch)
    decreases |s|
  {
    if |s| == 0 {
      assert cur + "" == cur;
      if |cur| > 0 {
        ConcatCons(cur, []);
      }
    } else if s[0] == '\\' && |s| > 1 {
      SplitConcat(s[2..], ch, cur + [s[1]]);
      LiteralEscape(s, ch);
      Shifted(cur, s[1], Literal(s[2..], ch), SplitLoop(s[2..], ch, cur + [s[1]]), Literal(s, ch));
    } else if s[0] == ch {
      SplitConcat(s[1..], ch, "");
      LiteralDelimiter(s, ch);
      if |cur| > 0 {
        Closed(cur, SplitLoop(s[1..], ch, ""), Literal(s[1..], ch));
      } else {
        assert cur == "";
      }
    } else {
      SplitConcat(s[1..], ch, cur + [s[0]]);
      LiteralPlain(s, ch);
      Shifted(cur, s[0], Literal(s[1..], ch), SplitLoop(s[1..], ch, cur + [s[0]]), Literal(s, ch));
    }
  }

  /** A string that starts or ends with a non-delimiter keeps a character. */
  lemma {:induction false} LiteralNonEmpty(s: string, ch: char)
    ensures |s| > 0 && (s[0] != ch || s[|s| - 1] != ch) ==> |Literal(s, ch)| > 0
    decreases |s|
  {
    if |s| > 0 && (s[0] != ch || s[|s| - 1] != ch) {
      if s[0] == '\\' && |s| > 1 {
      } else if s[0] == ch {
        assert s[1..][|s[1..]| - 1] == s[|s| - 1];
        LiteralNonEmpty(s[1..], ch);
      }
    }
  }

  /** The same accounting for the as-written loop: no character is lost,
      whatever the flag does. */
  lemma {:induction false} SplitAsWrittenConcat(s: string, ch: char, cur: string, waiting: bool)
    ensures Concat(SplitLoopAsWritten(s, ch, cur, waiting)) == cur + Literal(s, ch)
    decreases |s|
  {
    if |s| == 0 {
      assert cur + "" == cur;
      if |cur| > 0 {
        ConcatCons(cur, []);
      }
    } else if s[0] == '\\' && |s| > 1 {
      SplitAsWrittenConcat(s[2..], ch, cur + [s[1]], waiting);
      LiteralEscape(s, ch);
      Shifted(cur, s[1], Literal(s[2..], ch), SplitLoopAsWritten(s[2..], ch, cur + [s[1]], waiting), Literal(s, ch));
    } else if s[0] == ch {
      LiteralDelimiter(s, ch);
      if !waiting && |cur| > 0 {
        SplitAsWrittenConcat(s[1..], ch, "", true);
        Closed(cur, SplitLoopAsWritten(s[1..], ch, "", true), Literal(s[1..], ch));
      } else {
        SplitAsWrittenConcat(s[1..], ch, cur, waiting);
      }
    } else {
      SplitAsWrittenConcat(s[1..], ch, cur + [s[0]], false);
      LiteralPlain(s, ch);
      Shifted(cur, s[0], Literal(s[1..], ch), SplitLoopAsWritten(s[1..], ch, cur + [s[0]], false), Literal(s, ch));
    }
  }

  /** The as-written tokenizer never yields an empty chunk either. */
  lemma {:induction false} SplitAsWrittenNoEmpty(s: string, ch: char, cur: string, waiting: bool)
    ensures NoEmptyChunk(SplitLoopAsWritten(s, ch, cur, waiting))
    decreases |s|
  {
    if |s| == 0 {
    } else if s[0] == '\\' && |s| > 1 {
      SplitAsWrittenNoEmpty(s[2..], ch, cur + [s[1]], waiting);
    } else if s[0] == ch {
      if !waiting && |cur| > 0 {
        SplitAsWrittenNoEmpty(s[1..], ch, "", true);
      } else {
        SplitAsWrittenNoEmpty(s[1..], ch, cur, waiting);
      }
    } else {
      SplitAsWrittenNoEmpty(s[1..], ch, cur + [s[0]], false);
    }
  }

  /** Without backslashes the kept characters are the input minus every
      delimiter. */
  lemma {:induction false} LiteralWithoutEscapes(s: string, ch: char)
    requires '\\' !in s
    ensures Literal(s, ch) == Without(s, ch)
    decreases |s|
  {
    if |s| > 0 {
      assert s[0] != '\\';
      LiteralWithoutEscapes(s[1..], ch);
    }
  }

  /** Without backslashes no chunk contains the delimiter or a backslash. */
  lemma {:induction false} ChunksHaveNoDelimiter(s: string, ch: char, cur: string)
    requires '\\' !in s && ch !in cur && '\\' !in cur
    ensures forall k :: 0 <= k < |SplitLoop(s, ch, cur)| ==>
              ch !in SplitLoop(s, ch, cur)[k] && '\\' !in SplitLoop(s, ch, cur)[k]
    decreases |s|
  {
    if |s| > 0 {
      assert s[0] != '\\';
      if s[0] == ch {
        ChunksHaveNoDelimiter(s[1..], ch, "");
      } else {
        ChunksHaveNoDelimiter(s[1..], ch, cur + [s[0]]);
      }
    }
  }

  /** For backslash-free input: no chunk holds the delimiter or a backslash,
      and the chunks
      concatenate to the input with every delimiter removed. */
  lemma SplitPlainText(s: string, ch: char)
    requires '\\' !in s
    ensures forall k :: 0 <= k < |Split(s, ch)| ==> ch !in Split(s, ch)[k] && '\\' !in Split(s, ch)[k]
    ensures Concat(Split(s, ch)) == Without(s, ch)
  {
    ChunksHaveNoDelimiter(s, ch, "");
    LiteralWithoutEscapes(s, ch);
  }

  /** On backslash-free input the as-written and the corrected tokenizer
      agree (the flag can only disagree with `cur == ""` after an escape). */
  lemma {:induction false} SplitAgreesWithoutEscapes(s: string, ch: char, cur: string, waiting: bool)
    requires '\\' !in s
    requires waiting ==> cur == ""
    ensures SplitLoopAsWritten(s, ch, cur, waiting) == SplitLoop(s, ch, cur)
    decreases |s|
  {
    if |s| > 0 {
      assert s[0] != '\\';
      if s[0] == ch {
        if !waiting && |cur| > 0 {
          SplitAgreesWithoutEscapes(s[1..], ch, "", true);
        } else {
          SplitAgreesWithoutEscapes(s[1..], ch, cur, waiting);
        }
      } else {
        SplitAgreesWithoutEscapes(s[1..], ch, cur + [s[0]], false);
      }
    }
  }

  lemma SplitAsWrittenAgrees(s: string, ch: char)
    requires '\\' !in s
    ensures SplitAsWritten(s, ch) == Split(s, ch)
  {
    SplitAgreesWithoutEscapes(s, ch, "", false);
  }

  /** An escaped delimiter is an ordinary chunk character. */
  lemma EscapedDelimiterIsKept(ch: char)
    ensures Split(['\\', ch], ch) == [[ch]]
  {
    var s := ['\\', ch];
    assert s[2..] == "" && s[1] == ch;
    assert SplitLoop(s, ch, "") == SplitLoop("", ch, "" + [ch]);
    assert "" + [ch] == [ch];
  }

  /** A final lone backslash is kept literally. */
  lemma LoneBackslashIsKept(ch: char)
    requires ch != '\\'
    ensures Split("\\", ch) == ["\\"]
  {
    var s := "\\";
    assert |s| == 1 && s[0] == '\\' && s[1..] == "";
    assert SplitLoop(s, ch, "") == SplitLoop("", ch, "" + [s[0]]);
    assert "" + [s[0]] == "\\";
  }

  /** A trailing delimiter only flushes the pending chunk, which the end of
      input does anyway. */
  lemma {:induction false} TrailingDelimiterIgnored(s: string, ch: char, cur: string)
    requires '\\' !in s
    ensures SplitLoop(s + [ch], ch, cur) == SplitLoop(s, ch, cur)
    decreases |s|
  {
    if |s| == 0 {
      assert s + [ch] == [ch] && [ch][1..] == "";
    } else {
      assert s[0] != '\\' by {
        assert s[0] in s;
      }
      assert (s + [ch])[0] == s[0] && (s + [ch])[1..] == s[1..] + [ch];
      assert '\\' !in s[1..];
      if s[0] == ch {
        TrailingDelimiterIgnored(s[1..], ch, "");
      } else {
        TrailingDelimiterIgnored(s[1..], ch, cur + [s[0]]);
      }
    }
  }

  /** A leading delimiter before any chunk is skipped. */
  lemma LeadingDelimiterSkipped(s: string, ch: char)
    requires ch != '\\'
    ensures Split([ch] + s, ch) == Split(s, ch)
  {
    assert ([ch] + s)[0] == ch && ([ch] + s)[1..] == s;
  }

  // ---------------------------------------------------------------------
  // escaping and the intended round trip

  /** `t` with the delimiter and the backslash each escaped. */
  function Escape(t: string, ch: char): (r: string)
    ensures |r| >= |t|
  {
    if |t| == 0 then ""
    else (if t[0] == ch || t[0] == '\\' then ['\\', t[0]] else [t[0]]) + Escape(t[1..], ch)
  }

  /** Escaped tokens joined by one delimiter each. */
  function JoinEscaped(toks: seq<string>, ch: char): string
    requires |toks| > 0
  {
    if |toks| == 1 then Escape(toks[0], ch)
    else Escape(toks[0], ch) + [ch] + JoinEscaped(toks[1..], ch)
  }

  /** One step of the loop over an escape pair. */
  lemma EscapedStep(x: char, tail: string, ch: char, cur: string)
    ensures SplitLoop(['\\', x] + tail, ch, cur) == SplitLoop(tail, ch, cur + [x])
  {
    var s := ['\\', x] + tail;
    assert s[0] == '\\' && |s| > 1 && s[1] == x && s[2..] == tail;
  }

  /** One step of the loop over an ordinary character. */
  lemma PlainStep(x: char, tail: string, ch: char, cur: string)
    requires x != '\\' && x != ch
    ensures SplitLoop([x] + tail, ch, cur) == SplitLoop(tail, ch, cur + [x])
  {
    var s := [x] + tail;
    assert s[0] == x && s[1..] == tail;
  }

  /** An escaped token is absorbed into the pending chunk. */
  lemma {:induction false} EscapeAbsorbed(t: string, r: string, ch: char, cur: string)
    ensures SplitLoop(Escape(t, ch) + r, ch, cur) == SplitLoop(r, ch, cur + t)
    decreases |t|
  {
    if |t| == 0 {
      assert Escape(t, ch) + r == r;
      assert cur + t == cur;
    } else {
      var tail := Escape(t[1..], ch) + r;
      EscapeAbsorbed(t[1..], r, ch, cur + [t[0]]);
      assert cur + [t[0]] + t[1..] == cur + t;
      if t[0] == ch || t[0] == '\\' {
        assert Escape(t, ch) + r == ['\\', t[0]] + tail;
        EscapedStep(t[0], tail, ch, cur);
      } else {
        assert Escape(t, ch) + r == [t[0]] + tail;
        PlainStep(t[0], tail, ch, cur);
      }
    }
  }

  /** The corrected tokenizer inverts escaping-and-joining: every token comes
      back exactly, whatever characters it holds. */
  lemma {:induction false} SplitJoinRoundTrip(toks: seq<string>, ch: char)
    requires ch != '\\'
    requires |toks| > 0 && NoEmptyChunk(toks)
    ensures Split(JoinEscaped(toks, ch), ch) == toks
    decreases |toks|
  {
    SplitJoinFrom(toks, ch);
  }

  lemma {:induction false} SplitJoinFrom(toks: seq<string>, ch: char)
    requires ch != '\\'
    requires |toks| > 0 && NoEmptyChunk(toks)
    ensures SplitLoop(JoinEscaped(toks, ch), ch, "") == toks
    decreases |toks|
  {
    assert toks[0] != "";
    if |toks| == 1 {
      EscapeAbsorbed(toks[0], "", ch, "");
      assert Escape(toks[0], ch) + "" == Escape(toks[0], ch);
      assert "" + toks[0] == toks[0];
    } else {
      var rest := JoinEscaped(toks[1..], ch);
      assert JoinEscaped(toks, ch) == Escape(toks[0], ch) + ([ch] + rest);
      EscapeAbsorbed(toks[0], [ch] + rest, ch, "");
      assert "" + toks[0] == toks[0];
      var u := [ch] + rest;
      assert u[0] == ch && u[1..] == rest;
      assert SplitLoop(u, ch, toks[0]) == [toks[0]] + SplitLoop(rest, ch, "");
      assert NoEmptyChunk(toks[1..]);
      SplitJoinFrom(toks[1..], ch);
      assert toks == [toks[0]] + toks[1..];
    }
  }

  /** The as-written loop on the escaped join of "a", " " and "c", step by
      step. */
  lemma SplitAsWrittenExample()
    ensures SplitAsWritten("a \\  c", ' ') == ["a", " c"]
  {
    var s := "a \\  c";
    assert s[0] == 'a' && s[1] == ' ' && s[2] == '\\' && s[3] == ' ' && s[4] == ' ' && s[5] == 'c';
    var s1, s2, s4, s5 := s[1..], s[2..], s[4..], s[5..];
    assert s1[0] == ' ' && s1[1..] == s2;
    assert s2[0] == '\\' && s2[1] == ' ' && s2[2..] == s4;
    assert s4[0] == ' ' && s4[1..] == s5;
    assert s5[0] == 'c' && s5[1..] == "";
    assert "" + ['a'] == "a" && "" + [' '] == " " && " " + ['c'] == " c";
    assert SplitLoopAsWritten(s5, ' ', " ", true) == [" c"];
    assert SplitLoopAsWritten(s4, ' ', " ", true) == [" c"];
    assert SplitLoopAsWritten(s2, ' ', "", true) == [" c"];
    assert SplitLoopAsWritten(s1, ' ', "a", false) == ["a", " c"];
  }

  /** The source's tokenizer: an escaped one-character token after a
      delimiter swallows the following delimiter, so the round trip fails where the
      corrected tokenizer completes it. */
  lemma SplitAsWrittenMergesTokens()
    ensures JoinEscaped(["a", " ", "c"], ' ') == "a \\  c"
    ensures SplitAsWritten(JoinEscaped(["a", " ", "c"], ' '), ' ') == ["a", " c"] != ["a", " ", "c"]
    ensures Split(JoinEscaped(["a", " ", "c"], ' '), ' ') == ["a", " ", "c"]
  {
    JoinExample();
    SplitAsWrittenExample();
    var toks := ["a", " ", "c"];
    assert NoEmptyChunk(toks) by {
      assert toks[0] == "a" && toks[1] == " " && toks[2] == "c";
    }
    SplitJoinRoundTrip(toks, ' ');
    assert ["a", " c"][1] != ["a", " ", "c"][1];
  }

  /** The two tokenizers cut the pattern "a*\\x*b" differently: the source's
      keeps "x" waiting and merges it with "b". */
  lemma PatternSegmentsDiffer()
    ensures SplitAsWritten("a*\\x*b", '*') == ["a", "xb"]
    ensures Split("a*\\x*b", '*') == ["a", "x", "b"]
  {
    var s := "a*\\x*b";
    assert s[0] == 'a' && s[1] == '*' && s[2] == '\\' && s[3] == 'x' && s[4] == '*' && s[5] == 'b';
    var s1, s2, s4, s5 := s[1..], s[2..], s[4..], s[5..];
    assert s1[0] == '*' && s1[1..] == s2;
    assert s2[0] == '\\' && s2[1] == 'x' && s2[2..] == s4;
    assert s4[0] == '*' && s4[1..] == s5;
    assert s5[0] == 'b' && s5[1..] == "";
    assert "" + ['a'] == "a" && "" + ['x'] == "x" && "x" + ['b'] == "xb" && "" + ['b'] == "b";
    assert SplitLoopAsWritten(s5, '*', "x", true) == ["xb"];
    assert SplitLoopAsWritten(s4, '*', "x", true) == ["xb"];
    assert SplitLoopAsWritten(s1, '*', "a", false) == ["a", "xb"];
    assert SplitLoop(s5, '*', "") == ["b"];
    assert SplitLoop(s4, '*', "x") == ["x", "b"];
    assert SplitLoop(s1, '*', "a") == ["a", "x", "b"];
  }

  lemma JoinExample()
    ensures JoinEscaped(["a", " ", "c"], ' ') == "a \\  c"
  {
    assert Escape("a", ' ') == "a" by {
      assert "a"[1..] == "";
    }
    assert Escape(" ", ' ') == "\\ " by {
      assert " "[1..] == "";
    }
    assert Escape("c", ' ') == "c" by {
      assert "c"[1..] == "";
    }
    assert ["a", " ", "c"][1..] == [" ", "c"];
    assert [" ", "c"][1..] == ["c"];
    assert JoinEscaped([" ", "c"], ' ') == "\\ " + " " + "c";
  }

  // ---------------------------------------------------------------------
  // std::string::find

  predicate OccursAt(text: string, pat: string, j: int) {
    0 <= j && j + |pat| <= |text| && text[j..j + |pat|] == pat
  }

  /** The first occurrence of `pat` in `text` at or after `from`
      (`std::string::find`); None plays the role of npos. */
  function Find(text: string, pat: string, from: nat): (r: Option<nat>)
    ensures r.Some? ==> from <= r.value && OccursAt(text, pat, r.value)
    ensures r.Some? ==> forall k :: from <= k < r.value ==> !OccursAt(text, pat, k)
    ensures r.None? ==> forall k :: from <= k ==> !OccursAt(text, pat, k)
    decreases |text| - from
  {
    if from + |pat| > |text| then None
    else if text[from..from + |pat|] == pat then Some(from)
    else Find(text, pat, from + 1)
  }

  // ---------------------------------------------------------------------
  // matches_pattern

  function SumLengths(segs: seq<string>): nat {
    if |segs| == 0 then 0 else |segs[0]| + SumLengths(segs[1..])
  }

  /** Every segment occurs at or after the summed length of the segments
      before it (not after the previous match). */
  predicate SegmentsFound(test: string, segs: seq<string>) {
    forall i :: 0 <= i < |segs| ==> Find(test, segs[i], SumLengths(segs[..i])).Some?
  }

  ghost predicate Occurs(text: string, pat: string) {
    exists j :: OccursAt(text, pat, j)
  }

  /** Segments found by Find occur in the text. */
  lemma FoundSegmentsOccur(test: string, segs: seq<string>)
    ensures SegmentsFound(test, segs) ==> forall k :: 0 <= k < |segs| ==> Occurs(test, segs[k])
  {
    if SegmentsFound(test, segs) {
      forall k | 0 <= k < |segs| ensures Occurs(test, segs[k]) {
        var f := Find(test, segs[k], SumLengths(segs[..k]));
        assert OccursAt(test, segs[k], f.value);
      }
    }
  }

  /** `matches_pattern(pattern, test)`: a star-free pattern matches only
      itself, and a matched test contains every literal segment of the
      pattern. */
  function MatchesPattern(pattern: string, test: string): (r: bool)
    ensures '*' !in pattern ==> (r <==> pattern == test)
    ensures r && '*' in pattern ==>
              forall k :: 0 <= k < |Split(pattern, '*')| ==> Occurs(test, Split(pattern, '*')[k])
  {
    if '*' !in pattern then pattern == test
    else
      var segs := Split(pattern, '*');
      FoundSegmentsOccur(test, segs);
      && (pattern[0] == '*' || segs[0] <= test)
      && SegmentsFound(test, segs)
      && (pattern[|pattern| - 1] == '*'
          || Find(test, segs[|segs| - 1], 0) == Some(|test| - |segs[|segs| - 1]|))
  }

  /** A pattern without an asterisk matches exactly itself. */
  lemma StarFreeIsExact(pattern: string, test: string)
    requires '*' !in pattern
    ensures MatchesPattern(pattern, test) <==> pattern == test
  {
  }

  /** Plain characters are absorbed into the pending chunk. */
  lemma {:induction false} PlainAbsorbed(p: string, r: string, ch: char, cur: string)
    requires '\\' !in p && ch !in p
    ensures SplitLoop(p + r, ch, cur) == SplitLoop(r, ch, cur + p)
    decreases |p|
  {
    if |p| == 0 {
      assert p + r == r && cur + p == cur;
    } else {
      assert p[0] in p;
      assert (p + r)[0] == p[0] && (p + r)[1..] == p[1..] + r;
      assert SplitLoop(p + r, ch, cur) == SplitLoop(p[1..] + r, ch, cur + [p[0]]);
      assert p == [p[0]] + p[1..];
      assert '\\' !in p[1..] && ch !in p[1..];
      PlainAbsorbed(p[1..], r, ch, cur + [p[0]]);
      assert cur + [p[0]] + p[1..] == cur + p;
    }
  }

  lemma PrefixPatternSegments(p: string)
    requires p != "" && '\\' !in p && '*' !in p
    ensures Split(p + "*", '*') == [p]
  {
    PlainAbsorbed(p, "*", '*', "");
    assert "" + p == p;
    assert "*"[1..] == "";
  }

  /** Against the ordinary glob meaning: a literal followed by one asterisk
      matches exactly the strings that start with the literal. */
  lemma PrefixPatternIff(p: string, test: string)
    requires p != "" && '\\' !in p && '*' !in p
    ensures MatchesPattern(p + "*", test) <==> p <= test
  {
    var pattern := p + "*";
    assert pattern[|pattern| - 1] == '*';
    assert '*' in pattern;
    assert pattern[0] == p[0];
    PrefixPatternSegments(p);
    var segs := [p];
    assert segs[..0] == [];
    if p <= test {
      assert OccursAt(test, p, 0);
      assert Find(test, p, 0).Some?;
    }
  }

  lemma InfixPatternSegments(p: string, q: string)
    requires p != "" && '\\' !in p && '*' !in p
    requires q != "" && '\\' !in q && '*' !in q
    ensures Split(p + "*" + q, '*') == [p, q]
  {
    PlainAbsorbed(p, "*" + q, '*', "");
    assert p + "*" + q == p + ("*" + q);
    assert "" + p == p;
    assert ("*" + q)[0] == '*' && ("*" + q)[1..] == q;
    assert SplitLoop("*" + q, '*', p) == [p] + SplitLoop(q, '*', "");
    PlainAbsorbed(q, "", '*', "");
    assert q + "" == q && "" + q == q;
  }

  /** The conditions a match of "p*q" checks, unfolded. */
  lemma InfixPatternUnfolds(p: string, q: string, test: string)
    requires p != "" && '\\' !in p && '*' !in p
    requires q != "" && '\\' !in q && '*' !in q
    ensures MatchesPattern(p + "*" + q, test) <==>
              && p <= test && Find(test, p, 0).Some? && Find(test, q, |p|).Some?
              && Find(test, q, 0) == Some(|test| - |q|)
  {
    InfixPatternShape(p, q);
    InfixPatternSegments(p, q);
    AnchoredMatch(p + "*" + q, test, p, q);
    TwoSegmentsFound(test, p, q);
  }

  lemma InfixPatternShape(p: string, q: string)
    requires p != "" && '*' !in p && q != "" && '*' !in q
    ensures var pattern := p + "*" + q;
            '*' in pattern && pattern[0] != '*' && pattern[|pattern| - 1] != '*'
  {
    var pattern := p + "*" + q;
    assert pattern[|p|] == '*';
    assert pattern[0] == p[0] && pattern[|pattern| - 1] == q[|q| - 1];
  }

  /** A pattern with literal first and last characters cut into two segments
      matches when the first is a prefix, both are found, and the second is
      first found at the end. */
  lemma AnchoredMatch(pattern: string, test: string, p: string, q: string)
    requires '*' in pattern && pattern[0] != '*' && pattern[|pattern| - 1] != '*'
    requires Split(pattern, '*') == [p, q]
    ensures MatchesPattern(pattern, test) <==>
              p <= test && SegmentsFound(test, [p, q]) && Find(test, q, 0) == Some(|test| - |q|)
  {
  }

  lemma TwoSegmentsFound(test: string, p: string, q: string)
    ensures SegmentsFound(test, [p, q]) <==> Find(test, p, 0).Some? && Find(test, q, |p|).Some?
  {
    var segs := [p, q];
    assert segs[..0] == [] && segs[..1] == [p];
    assert SumLengths([p]) == |p| by { assert [p][1..] == []; }
    assert segs[0] == p && segs[1] == q;
  }

  /** Against the ordinary reading of "p*q": the test starts with p, ends
      with q, the two do not overlap, and q occurs nowhere earlier than at
      its end (the trailing segment is anchored at its first occurrence). */
  lemma InfixPatternIff(p: string, q: string, test: string)
    requires p != "" && '\\' !in p && '*' !in p
    requires q != "" && '\\' !in q && '*' !in q
    ensures MatchesPattern(p + "*" + q, test) <==>
              && p <= test
              && |p| + |q| <= |test|
              && OccursAt(test, q, |test| - |q|)
              && forall i :: 0 <= i < |test| - |q| ==> !OccursAt(test, q, i)
  {
    InfixPatternUnfolds(p, q, test);
    var e := |test| - |q|;
    if MatchesPattern(p + "*" + q, test) {
      var f := Find(test, q, |p|).value;
      assert f >= e;
    } else if p <= test && |p| + |q| <= |test| && OccursAt(test, q, e)
              && forall i :: 0 <= i < e ==> !OccursAt(test, q, i) {
      assert OccursAt(test, p, 0);
      assert Find(test, q, |p|).Some?;
      assert Find(test, q, 0).Some?;
    }
  }

  /** A lone asterisk matches every string. */
  lemma StarMatchesAll(test: string)
    ensures MatchesPattern("*", test)
  {
    assert "*"[1..] == "";
    assert Split("*", '*') == [];
  }

  /** "systemd*" matches "systemd" and "systemd-journal" but not "mysystemd". */
  lemma SystemdExamples()
    ensures MatchesPattern("systemd*", "systemd")
    ensures MatchesPattern("systemd*", "systemd-journal")
    ensures !MatchesPattern("systemd*", "mysystemd")
  {
    assert "systemd*" == "systemd" + "*";
    PrefixPatternIff("systemd", "systemd");
    PrefixPatternIff("systemd", "systemd-journal");
    PrefixPatternIff("systemd", "mysystemd");
    assert "systemd-journal"[..7] == "systemd";
    assert "mysystemd"[0] == 'm';
  }

  /** The trailing segment is anchored at its FIRST occurrence: "b*a" rejects
      "baa", and "*a" rejects "aa", although both end with "a". */
  lemma FirstOccurrenceAnchoring()
    ensures !MatchesPattern("b*a", "baa")
    ensures !MatchesPattern("*a", "aa")
  {
    PlainAbsorbed("b", "*a", '*', "");
    assert "b*a" == "b" + "*a";
    assert "" + "b" == "b";
    assert "*a"[0] == '*' && "*a"[1..] == "a";
    PlainAbsorbed("a", "", '*', "");
    assert "a" + "" == "a" && "" + "a" == "a";
    assert SplitLoop("a", '*', "") == ["a"];
    assert SplitLoop("*a", '*', "b") == ["b"] + SplitLoop("a", '*', "");
    assert SplitLoop("*a", '*', "") == SplitLoop("a", '*', "");
    assert Split("b*a", '*') == ["b", "a"];
    assert Find("baa", "a", 0) == Some(1) by {
      assert "baa"[0..1] == "b";
      assert "baa"[1..2] == "a";
    }
    assert Split("*a", '*') == ["a"];
    assert Find("aa", "a", 0) == Some(0) by {
      assert "aa"[0..1] == "a";
    }
  }
}
