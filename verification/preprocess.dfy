/** The pure set and string logic of the preprocessing script: moving
    number-like tokens out of the known vocabulary, building a vocabulary
    from text lines, writing it out sorted, and picking the variables of a
    line. Files are given as their lines; reading and writing them is left
    to the caller. */
module Preprocess {
  import opened Results
  import opened Text

  /* ---------------------------------------------------------------------
     The number pattern: an optional sign, digits, an optional `.digits`
     fraction and an optional `/digits` denominator, matched at the start
     of a token. */

  /** Length of the run of ASCII digits of `s` that starts at `i`. */
  function DigitRun(s: string, i: nat): (n: nat)
    requires i <= |s|
    ensures i + n <= |s|
    ensures forall k :: i <= k < i + n ==> IsDigit(s[k])
    ensures i + n < |s| ==> !IsDigit(s[i + n])
    decreases |s| - i
  {
    if i < |s| && IsDigit(s[i]) then 1 + DigitRun(s, i + 1) else 0
  }

  /** An optional group made of the marker `c` and at least one digit,
      tried at `i`: where the match stands after it. */
  function OptionalGroup(s: string, i: nat, c: char): (j: nat)
    requires i <= |s|
    ensures i <= j <= |s|
    ensures j > i ==> i + 1 < |s| && s[i] == c && IsDigit(s[i + 1])
  {
    if i < |s| && s[i] == c && DigitRun(s, i + 1) > 0 then i + 1 + DigitRun(s, i + 1) else i
  }

  predicate IsSign(c: char)
  {
    c == '+' || c == '-'
  }

  /** `re.match` of the number pattern against `s`: the end of the matched
      prefix, or None. A leading sign that is not followed by a digit cannot
      be dropped by backtracking, since the digits would then have to start
      at the sign. The pattern matches exactly the tokens that start with a
      digit or with a sign followed by a digit. */
  function MatchNumber(s: string): (r: Option<nat>)
    ensures r.Some? <==> (|s| > 0 && IsDigit(s[0])) || (|s| > 1 && IsSign(s[0]) && IsDigit(s[1]))
    ensures r.Some? ==> 0 < r.value <= |s|
  {
    var start := if |s| > 0 && IsSign(s[0]) then 1 else 0;
    var digits := DigitRun(s, start);
    if digits == 0 then None
    else
      var afterInteger := start + digits;
      var afterFraction := OptionalGroup(s, afterInteger, '.');
      Some(OptionalGroup(s, afterFraction, '/'))
  }

  predicate IsNumberLike(v: string)
  {
    MatchNumber(v).Some?
  }

  /** `move_numbers_from_known`: every number-like token of the known
      vocabulary moves to the unknown one. Nothing is lost, nothing
      number-like stays known, and only number-like known tokens move. */
  method MoveNumbersFromKnown(vocab: set<string>, vocabUnk: set<string>)
    returns (known: set<string>, unknown: set<string>)
    ensures known + unknown == vocab + vocabUnk
    ensures known <= vocab && vocabUnk <= unknown
    ensures forall v :: v in known ==> !IsNumberLike(v)
    ensures forall v :: v in vocab && !IsNumberLike(v) ==> v in known
    ensures forall v :: v in vocab && IsNumberLike(v) ==> v in unknown
    ensures forall v :: v in unknown ==> v in vocabUnk || (v in vocab && IsNumberLike(v))
  {
    var toMove: set<string> := {};
    var rest := vocab;
    while rest != {}
      invariant rest <= vocab
      invariant forall v :: v in toMove <==> v in vocab && v !in rest && IsNumberLike(v)
      decreases |rest|
    {
      var v :| v in rest;
      if IsNumberLike(v) {
        toMove := toMove + {v};
      }
      rest := rest - {v};
    }
    known := vocab - toMove;
    unknown := vocabUnk + toMove;
  }

  /* ---------------------------------------------------------------------
     Building the vocabulary. */

  /** No upper-case ASCII letter in `w`. */
  predicate NoUpper(w: string)
  {
    forall k :: 0 <= k < |w| ==> !IsUpper(w[k])
  }

  /** The words of one line: lower-cased, then split on whitespace. */
  function LineWords(line: string): (words: set<string>)
    ensures forall w :: w in words ==> |w| > 0 && HasNoSpace(w) && NoUpper(w)
  {
    var lowered := Lower(line);
    var ws := SplitWhitespace(lowered);
    assert forall i :: 0 <= i < |ws| ==> NoUpper(ws[i]) by {
      forall i, k | 0 <= i < |ws| && 0 <= k < |ws[i]| ensures !IsUpper(ws[i][k]) {
        SplitWhitespaceFrom(lowered, i, k);
        var j :| 0 <= j < |lowered| && lowered[j] == ws[i][k];
      }
    }
    set i | 0 <= i < |ws| :: ws[i]
  }

  /** The union of a sequence of sets, accumulated left to right as the
      `|=` loops do. */
  function UnionAll(sets: seq<set<string>>): (u: set<string>)
    ensures forall x :: x in u <==> exists i :: 0 <= i < |sets| && x in sets[i]
  {
    if |sets| == 0 then {}
    else
      var init := sets[..|sets| - 1];
      assert forall i :: 0 <= i < |init| ==> init[i] == sets[i];
      UnionAll(init) + sets[|sets| - 1]
  }

  /** The words of all lines of one file. */
  function FileVocab(lines: seq<string>): (vocab: set<string>)
    ensures forall w :: w in vocab <==> exists l :: 0 <= l < |lines| && w in LineWords(lines[l])
    ensures forall w :: w in vocab ==> |w| > 0 && HasNoSpace(w) && NoUpper(w)
  {
    var perLine := seq(|lines|, l requires 0 <= l < |lines| => LineWords(lines[l]));
    var u := UnionAll(perLine);
    assert forall w :: w in u <==> exists l :: 0 <= l < |lines| && w in LineWords(lines[l]) by {
      forall w ensures w in u <==> exists l :: 0 <= l < |lines| && w in LineWords(lines[l]) {
        if w in u {
          var l :| 0 <= l < |perLine| && w in perLine[l];
          assert w in LineWords(lines[l]);
        }
        if exists l :: 0 <= l < |lines| && w in LineWords(lines[l]) {
          var l :| 0 <= l < |lines| && w in LineWords(lines[l]);
          assert w in perLine[l];
        }
      }
    }
    u
  }

  /** `build_vocab`: the union, over every file, of the words of the file's
      lines. Each word is non-empty and holds no whitespace and no upper-case
      ASCII letter. */
  function BuildVocab(files: seq<seq<string>>): (vocab: set<string>)
    ensures forall w :: w in vocab <==> exists f :: 0 <= f < |files| && w in FileVocab(files[f])
    ensures forall w :: w in vocab ==> |w| > 0 && HasNoSpace(w) && NoUpper(w)
  {
    var perFile := seq(|files|, f requires 0 <= f < |files| => FileVocab(files[f]));
    var u := UnionAll(perFile);
    assert forall w :: w in u <==> exists f :: 0 <= f < |files| && w in FileVocab(files[f]) by {
      forall w ensures w in u <==> exists f :: 0 <= f < |files| && w in FileVocab(files[f]) {
        if w in u {
          var f :| 0 <= f < |perFile| && w in perFile[f];
          assert w in FileVocab(files[f]);
        }
        if exists f :: 0 <= f < |files| && w in FileVocab(files[f]) {
          var f :| 0 <= f < |files| && w in FileVocab(files[f]);
          assert w in perFile[f];
        }
      }
    }
    u
  }

  /* ---------------------------------------------------------------------
     Saving the vocabulary: Python's `sorted` on strings orders them by
     code points, lexicographically. */

  predicate LexLess(a: string, b: string)
  {
    if |a| == 0 then |b| > 0
    else if |b| == 0 then false
    else if a[0] == b[0] then LexLess(a[1..], b[1..])
    else a[0] < b[0]
  }

  lemma {:induction false} LexLessIrreflexive(a: string)
    ensures !LexLess(a, a)
  {
    if |a| > 0 {
      LexLessIrreflexive(a[1..]);
    }
  }

  lemma {:induction false} LexLessAsymmetric(a: string, b: string)
    requires LexLess(a, b)
    ensures !LexLess(b, a)
  {
    if |a| > 0 && |b| > 0 && a[0] == b[0] {
      LexLessAsymmetric(a[1..], b[1..]);
    }
  }

  lemma {:induction false} LexLessTotal(a: string, b: string)
    requires a != b
    ensures LexLess(a, b) || LexLess(b, a)
  {
    if |a| > 0 && |b| > 0 && a[0] == b[0] {
      assert a == [a[0]] + a[1..] && b == [b[0]] + b[1..];
      LexLessTotal(a[1..], b[1..]);
    }
  }

  lemma {:induction false} LexLessTransitive(a: string, b: string, c: string)
    requires LexLess(a, b) && LexLess(b, c)
    ensures LexLess(a, c)
  {
    if |a| > 0 && a[0] == b[0] && b[0] == c[0] {
      LexLessTransitive(a[1..], b[1..], c[1..]);
    }
  }

  predicate StrictlySorted(ws: seq<string>)
  {
    forall i, j :: 0 <= i < j < |ws| ==> LexLess(ws[i], ws[j])
  }

  /** Inserts a new word at its place in a sorted list. */
  function Insert(ws: seq<string>, v: string): (r: seq<string>)
    requires StrictlySorted(ws) && v !in ws
    ensures StrictlySorted(r)
    ensures |r| == |ws| + 1
    ensures forall x :: x in r <==> x in ws || x == v
  {
    if |ws| == 0 then [v]
    else if LexLess(v, ws[0]) then
      assert forall j :: 0 < j < |ws| ==> LexLess(v, ws[j]) by {
        forall j | 0 < j < |ws| ensures LexLess(v, ws[j]) {
          LexLessTransitive(v, ws[0], ws[j]);
        }
      }
      [v] + ws
    else
      LexLessTotal(v, ws[0]);
      var tail := Insert(ws[1..], v);
      assert forall j :: 0 <= j < |tail| ==> LexLess(ws[0], tail[j]) by {
        forall j | 0 <= j < |tail| ensures LexLess(ws[0], tail[j]) {
          assert tail[j] in tail;
        }
      }
      [ws[0]] + tail
  }

  /** `sorted(vocab)`: the words of the set, each once, in increasing order. */
  method SortedWords(vocab: set<string>) returns (ws: seq<string>)
    ensures StrictlySorted(ws)
    ensures forall w :: w in ws <==> w in vocab
    ensures |ws| == |vocab|
  {
    ws := [];
    var rest := vocab;
    while rest != {}
      invariant rest <= vocab
      invariant StrictlySorted(ws)
      invariant forall w :: w in ws <==> w in vocab && w !in rest
      invariant |ws| + |rest| == |vocab|
      decreases |rest|
    {
      var v :| v in rest;
      ws := Insert(ws, v);
      rest := rest - {v};
    }
  }

  /** A proof step for `SortedListingUnique`, modelling nothing of its own:
      it gives the empty case the membership fact without putting it next
      to that case's hypotheses. */
  lemma HeadIsMember(b: seq<string>)
    ensures |b| > 0 ==> b[0] in b
  {
  }

  /** There is only one sorted listing of a set of words. */
  lemma {:induction false} SortedListingUnique(a: seq<string>, b: seq<string>)
    requires StrictlySorted(a) && StrictlySorted(b)
    requires forall w :: w in a <==> w in b
    ensures a == b
    decreases |a|
  {
    if |a| == 0 {
      HeadIsMember(b);
    } else {
      assert a[0] in a;
      assert |b| > 0;
      assert b[0] in b;
      var i :| 0 <= i < |a| && a[i] == b[0];
      var j :| 0 <= j < |b| && b[j] == a[0];
      if i > 0 && j > 0 {
        LexLessAsymmetric(a[0], a[i]);
      } else if i > 0 {
        LexLessIrreflexive(a[0]);
      } else if j > 0 {
        LexLessIrreflexive(b[0]);
      }
      assert a[0] == b[0];
      forall w | w in a[1..] ensures w in b[1..] {
        var k :| 0 <= k < |a[1..]| && a[1..][k] == w;
        assert a[k + 1] == w;
        assert w != a[0] by {
          LexLessIrreflexive(w);
        }
        assert w in b;
        var m :| 0 <= m < |b| && b[m] == w;
        assert b[1..][m - 1] == w;
      }
      forall w | w in b[1..] ensures w in a[1..] {
        var k :| 0 <= k < |b[1..]| && b[1..][k] == w;
        assert b[k + 1] == w;
        assert w != b[0] by {
          LexLessIrreflexive(w);
        }
        assert w in a;
        var m :| 0 <= m < |a| && a[m] == w;
        assert a[1..][m - 1] == w;
      }
      SortedListingUnique(a[1..], b[1..]);
      assert a == [a[0]] + a[1..] && b == [b[0]] + b[1..];
    }
  }

  /** The file `save_vocab` writes: one word per line. */
  function VocabFile(ws: seq<string>): (r: string)
    ensures |ws| == 0 <==> r == ""
    ensures |ws| > 0 ==> |ws[0]| < |r| && r[..|ws[0]|] == ws[0] && r[|ws[0]|] == '\n'
    ensures |ws| > 0 ==> r[|r| - 1] == '\n'
  {
    if |ws| == 0 then "" else ws[0] + "\n" + VocabFile(ws[1..])
  }

  /** The lines of a text: the pieces between newlines, without the empty
      piece after a final newline. */
  function ReadLines(content: string): seq<string>
  {
    var pieces := SplitOn(content, '\n');
    if pieces[|pieces| - 1] == "" then pieces[..|pieces| - 1] else pieces
  }

  lemma {:induction false} VocabFileJoin(ws: seq<string>)
    ensures VocabFile(ws) == Join(ws + [""], '\n')
  {
    if |ws| > 0 {
      VocabFileJoin(ws[1..]);
      assert (ws + [""])[1..] == ws[1..] + [""];
    }
  }

  /** Reading the written file line by line gives the listing back, as long
      as no word spans two lines. */
  lemma VocabFileRoundTrip(ws: seq<string>)
    requires forall i :: 0 <= i < |ws| ==> '\n' !in ws[i]
    ensures ReadLines(VocabFile(ws)) == ws
  {
    VocabFileJoin(ws);
    var xs := ws + [""];
    assert forall i :: 0 <= i < |xs| ==> '\n' !in xs[i] by {
      forall i | 0 <= i < |xs| ensures '\n' !in xs[i] {
        if i < |ws| {
          assert xs[i] == ws[i];
        }
      }
    }
    SplitOnJoin(xs, '\n');
    assert xs[..|xs| - 1] == ws;
  }

  /** `save_vocab`: the file holds the words of the set, one per line, in
      sorted order, each exactly once. */
  method SaveVocab(vocab: set<string>) returns (content: string)
    ensures (forall w :: w in vocab ==> '\n' !in w) ==>
              var ws := ReadLines(content);
              StrictlySorted(ws) && |ws| == |vocab| && forall w :: w in ws <==> w in vocab
  {
    var ws := SortedWords(vocab);
    content := VocabFile(ws);
    if forall w :: w in vocab ==> '\n' !in w {
      forall i | 0 <= i < |ws| ensures '\n' !in ws[i] {
        assert ws[i] in ws;
      }
      VocabFileRoundTrip(ws);
    }
  }

  /* ---------------------------------------------------------------------
     Variables of a line: the pieces of the line split on single spaces
     that are unknown words. */

  /** The variables `parse_for_variables` finds in a line read from a file.
      The line still ends with its newline, which stays on the last piece. */
  function LineVariablesAsWritten(line: string, vocabUnk: set<string>): (vars: set<string>)
    ensures vars <= vocabUnk
    ensures forall v :: v in vars ==> ' ' !in v
  {
    var pieces := SplitOn(line, ' ');
    set p | p in pieces && p in vocabUnk
  }

  /** The line without its line terminator. */
  function StripNewline(line: string): (r: string)
    ensures '\n' !in line ==> r == line
    ensures |line| > 0 && line[|line| - 1] == '\n' ==> r + "\n" == line
  {
    if |line| > 0 && line[|line| - 1] == '\n' then line[..|line| - 1] else line
  }

  /** The variables of a line, with the newline removed before splitting. */
  function LineVariables(line: string, vocabUnk: set<string>): (vars: set<string>)
    ensures vars <= vocabUnk
    ensures forall v :: v in vars ==> ' ' !in v
  {
    var pieces := SplitOn(StripNewline(line), ' ');
    set p | p in pieces && p in vocabUnk
  }

  lemma {:induction false} JoinAppendLast(xs: seq<string>, sep: char, t: string)
    requires |xs| >= 1
    ensures Join(xs, sep) + t == Join(xs[..|xs| - 1] + [xs[|xs| - 1] + t], sep)
  {
    if |xs| > 1 {
      JoinAppendLast(xs[1..], sep, t);
      var ys := xs[..|xs| - 1] + [xs[|xs| - 1] + t];
      assert ys[1..] == xs[1..][..|xs[1..]| - 1] + [xs[1..][|xs[1..]| - 1] + t];
    }
  }

  lemma {:induction false} JoinFreeOf(xs: seq<string>, sep: char, c: char)
    requires c != sep
    requires forall i :: 0 <= i < |xs| ==> c !in xs[i]
    ensures c !in Join(xs, sep)
  {
    if |xs| > 1 {
      JoinFreeOf(xs[1..], sep, c);
    }
  }

  /** A line built from words: split as written, the newline sticks to the
      last word, so that word is found only when it also occurs earlier. */
  lemma LastWordMissed(ws: seq<string>, vocabUnk: set<string>)
    requires |ws| >= 1
    requires forall i :: 0 <= i < |ws| ==> ' ' !in ws[i] && '\n' !in ws[i]
    ensures var last := ws[|ws| - 1];
            last in LineVariablesAsWritten(Join(ws, ' ') + "\n", vocabUnk) <==>
              last in vocabUnk && last in ws[..|ws| - 1]
  {
    var last := ws[|ws| - 1];
    var ys := ws[..|ws| - 1] + [last + "\n"];
    JoinAppendLast(ws, ' ', "\n");
    assert forall i :: 0 <= i < |ys| ==> ' ' !in ys[i] by {
      forall i | 0 <= i < |ys| ensures ' ' !in ys[i] {
        if i < |ws| - 1 {
          assert ys[i] == ws[i];
        }
      }
    }
    SplitOnJoin(ys, ' ');
    assert last != last + "\n";
    assert last in ys <==> last in ws[..|ws| - 1];
  }

  /** Split as written, the variables of a line built from words are its
      unknown words before the last, plus the last word with the newline
      still attached when that is itself an unknown word. */
  lemma LineVariablesAsWrittenOfWords(ws: seq<string>, vocabUnk: set<string>)
    requires |ws| >= 1
    requires forall i :: 0 <= i < |ws| ==> ' ' !in ws[i] && '\n' !in ws[i]
    ensures forall v :: v in LineVariablesAsWritten(Join(ws, ' ') + "\n", vocabUnk) <==>
              v in vocabUnk && (v in ws[..|ws| - 1] || v == ws[|ws| - 1] + "\n")
  {
    var last := ws[|ws| - 1];
    var ys := ws[..|ws| - 1] + [last + "\n"];
    JoinAppendLast(ws, ' ', "\n");
    forall i | 0 <= i < |ys| ensures ' ' !in ys[i] {
      if i < |ws| - 1 {
        assert ys[i] == ws[i];
      }
    }
    SplitOnJoin(ys, ' ');
    forall v ensures v in ys <==> v in ws[..|ws| - 1] || v == last + "\n" {
      if v in ys {
        var i :| 0 <= i < |ys| && ys[i] == v;
        if i < |ws| - 1 {
          assert v == ws[..|ws| - 1][i];
        }
      }
      if v in ws[..|ws| - 1] {
        var i :| 0 <= i < |ws| - 1 && ws[..|ws| - 1][i] == v;
        assert ys[i] == v;
      }
      if v == last + "\n" {
        assert ys[|ys| - 1] == v;
      }
    }
  }

  /** The shortest witness: `x = 5` with `5` unknown yields no variable. */
  lemma LastWordMissedExample()
    ensures LineVariablesAsWritten("x = 5\n", {"5"}) == {}
  {
    var ws := ["x", "=", "5"];
    assert Join(ws, ' ') == "x = 5";
    LastWordMissed(ws, {"5"});
    assert "x = 5\n" == Join(ws, ' ') + "\n";
  }

  /** With the newline stripped, the variables of a line built from words
      are exactly its unknown words, the last one included, whether or not
      the line carries its newline. */
  lemma LineVariablesOfWords(ws: seq<string>, vocabUnk: set<string>)
    requires |ws| >= 1
    requires forall i :: 0 <= i < |ws| ==> ' ' !in ws[i] && '\n' !in ws[i]
    ensures forall v :: v in LineVariables(Join(ws, ' ') + "\n", vocabUnk) <==> v in ws && v in vocabUnk
    ensures LineVariables(Join(ws, ' '), vocabUnk) == LineVariables(Join(ws, ' ') + "\n", vocabUnk)
  {
    var line := Join(ws, ' ');
    JoinFreeOf(ws, ' ', '\n');
    assert StripNewline(line + "\n") == line;
    assert StripNewline(line) == line;
    SplitOnJoin(ws, ' ');
  }

  /** The output line for a set of variables: the variables in some order
      (Python's set order), joined with spaces, and a newline. */
  method VariablesLine(vars: set<string>) returns (ln: string)
    ensures |ln| > 0 && ln[|ln| - 1] == '\n'
    ensures vars == {} ==> ln == "\n"
    ensures vars != {} && (forall v :: v in vars ==> ' ' !in v) ==>
              (forall w :: w in SplitOn(ln[..|ln| - 1], ' ') <==> w in vars)
              && |SplitOn(ln[..|ln| - 1], ' ')| == |vars|
  {
    var order: seq<string> := [];
    var rest := vars;
    while rest != {}
      invariant rest <= vars
      invariant forall w :: w in order <==> w in vars && w !in rest
      invariant |order| + |rest| == |vars|
      decreases |rest|
    {
      var v :| v in rest;
      assert v !in order;
      order := order + [v];
      rest := rest - {v};
    }
    ln := Join(order, ' ') + "\n";
    assert ln[..|ln| - 1] == Join(order, ' ');
    if vars != {} && (forall v :: v in vars ==> ' ' !in v) {
      var v :| v in vars;
      assert v in order;
      forall i | 0 <= i < |order| ensures ' ' !in order[i] {
        assert order[i] in order;
      }
      SplitOnJoin(order, ' ');
    }
  }

  /** The loop of `parse_for_variables` over the lines, given each line's
      variables: one output line per input line, naming exactly those. */
  method WriteVariableLines(varsPerLine: seq<set<string>>) returns (out: seq<string>)
    requires forall i, v :: 0 <= i < |varsPerLine| && v in varsPerLine[i] ==> ' ' !in v
    ensures |out| == |varsPerLine|
    ensures forall i :: 0 <= i < |out| ==> ListsExactly(out[i], varsPerLine[i])
  {
    out := [];
    var n := 0;
    while n < |varsPerLine|
      invariant 0 <= n <= |varsPerLine|
      invariant |out| == n
      invariant forall i :: 0 <= i < n ==> ListsExactly(out[i], varsPerLine[i])
    {
      var ln := VariablesLine(varsPerLine[n]);
      var prev := out;
      out := out + [ln];
      forall i | 0 <= i <= n
        ensures ListsExactly(out[i], varsPerLine[i])
      {
        if i < n {
          assert out[i] == prev[i];
        }
      }
      n := n + 1;
    }
  }

  /** `parse_for_variables` as written: each output line names exactly the
      variables found with the newline still on the line's last piece. */
  method ParseForVariablesAsWritten(lines: seq<string>, vocabUnk: set<string>) returns (out: seq<string>)
    ensures |out| == |lines|
    ensures forall i :: 0 <= i < |lines| ==> ListsExactly(out[i], LineVariablesAsWritten(lines[i], vocabUnk))
  {
    out := WriteVariableLines(seq(|lines|, i requires 0 <= i < |lines| => LineVariablesAsWritten(lines[i], vocabUnk)));
  }

  /** `parse_for_variables` with the newline stripped before splitting (the
      corrected reading): one output line per input line, listing exactly
      that line's variables, the last word included. */
  method ParseForVariables(lines: seq<string>, vocabUnk: set<string>) returns (out: seq<string>)
    ensures |out| == |lines|
    ensures forall i :: 0 <= i < |lines| ==> ListsExactly(out[i], LineVariables(lines[i], vocabUnk))
  {
    out := WriteVariableLines(seq(|lines|, i requires 0 <= i < |lines| => LineVariables(lines[i], vocabUnk)));
  }

  /** `ln` is a written line naming exactly the words of `vars`. */
  ghost predicate ListsExactly(ln: string, vars: set<string>)
  {
    && |ln| > 0 && ln[|ln| - 1] == '\n'
    && (vars == {} ==> ln == "\n")
    && (vars != {} ==> forall w :: w in SplitOn(ln[..|ln| - 1], ' ') <==> w in vars)
    && (vars != {} ==> |SplitOn(ln[..|ln| - 1], ' ')| == |vars|)
  }
}
