/** The assistant's input filter (components/ai-assistant/utils.ts): every
    character with an entry in the Georgian/Russian table is replaced by its
    Latin spelling, then every non-ASCII character is dropped, every run of
    whitespace becomes one space and the ends are trimmed. The message box
    applies it on every change, so what reaches the assistant is its output.
    The table itself is data and is taken as a parameter. */
module Transliterate {
  import opened Text
  import Assistant

  type CharMap = map<char, string>

  /** `split('').map(c => m[c] ?? c).join('')`. */
  function MapChars(m: CharMap, s: string): (r: string)
    ensures (forall i :: 0 <= i < |s| ==> s[i] !in m) ==> r == s
  {
    if |s| == 0 then []
    else (if s[0] in m then m[s[0]] else [s[0]]) + MapChars(m, s[1..])
  }

  /** `replace(/[^\x00-\x7F]/g, '')`. */
  function DropNonAscii(s: string): (r: string)
    ensures |r| <= |s|
    ensures AllAscii(r)
    ensures AllAscii(s) ==> r == s
  {
    if |s| == 0 then []
    else (if IsAscii(s[0]) then [s[0]] else []) + DropNonAscii(s[1..])
  }

  /** The mapping works character by character: a concatenation maps part
      by part, and one character maps to its table entry or to itself. */
  lemma {:induction false} MapCharsConcat(m: CharMap, a: string, b: string)
    ensures MapChars(m, a + b) == MapChars(m, a) + MapChars(m, b)
    ensures |a| == 1 ==> MapChars(m, a) == if a[0] in m then m[a[0]] else a
  {
    if |a| > 0 {
      assert (a + b)[0] == a[0];
      assert (a + b)[1..] == a[1..] + b;
      MapCharsConcat(m, a[1..], b);
    } else {
      assert a + b == b;
    }
    if |a| == 1 {
      assert a == [a[0]];
      MapCharsOne(m, a[0]);
    }
  }

  lemma MapCharsOne(m: CharMap, c: char)
    ensures MapChars(m, [c]) == if c in m then m[c] else [c]
  {
    assert [c][1..] == [];
  }

  /** Dropping works character by character: a concatenation is filtered
      part by part, in order, and one character is kept exactly when it is
      ASCII. */
  lemma {:induction false} DropNonAsciiConcat(a: string, b: string)
    ensures DropNonAscii(a + b) == DropNonAscii(a) + DropNonAscii(b)
    ensures |a| == 1 ==> DropNonAscii(a) == if IsAscii(a[0]) then a else []
  {
    if |a| > 0 {
      assert (a + b)[0] == a[0];
      assert (a + b)[1..] == a[1..] + b;
      DropNonAsciiConcat(a[1..], b);
    } else {
      assert a + b == b;
    }
    if |a| == 1 {
      assert a == [a[0]];
      DropNonAsciiOne(a[0]);
    }
  }

  lemma DropNonAsciiOne(c: char)
    ensures DropNonAscii([c]) == if IsAscii(c) then [c] else []
  {
    assert [c][1..] == [];
  }

  /** `replace(/\s+/g, ' ')`: each maximal run of whitespace becomes one
      space. */
  function CollapseSpaces(s: string): (r: string)
    ensures |r| <= |s|
    decreases |s|
  {
    if |s| == 0 then []
    else if IsSpace(s[0]) then [' '] + CollapseSpaces(TrimStart(s[1..]))
    else [s[0]] + CollapseSpaces(s[1..])
  }

  /** The shape `replace(/\s+/g, ' ')` leaves: the only whitespace character
      is the plain space, and no two whitespace characters are adjacent. */
  predicate SingleSpaced(s: string) {
    forall i :: 0 <= i < |s| && IsSpace(s[i]) ==>
      s[i] == ' ' && (i + 1 < |s| ==> !IsSpace(s[i + 1]))
  }

  /** The non-whitespace characters of a text, in order. */
  function Visible(s: string): (r: string)
    ensures NoSpace(r)
  {
    if |s| == 0 then []
    else (if IsSpace(s[0]) then [] else [s[0]]) + Visible(s[1..])
  }

  function Transliterate(m: CharMap, s: string): string {
    Trim(CollapseSpaces(DropNonAscii(MapChars(m, s))))
  }

  // ---------------------------------------------------------------------
  // Collapsing whitespace

  lemma {:induction false} VisibleConcat(a: string, b: string)
    ensures Visible(a + b) == Visible(a) + Visible(b)
  {
    if |a| > 0 {
      assert (a + b)[1..] == a[1..] + b;
      VisibleConcat(a[1..], b);
    } else {
      assert a + b == b;
    }
  }

  /** Dropping a whitespace prefix does not change the visible text. */
  lemma {:induction false} VisibleTrimStart(s: string)
    ensures Visible(TrimStart(s)) == Visible(s)
  {
    if |s| > 0 && IsSpace(s[0]) {
      VisibleTrimStart(s[1..]);
    }
  }

  /** A collapsed text starts with whitespace exactly when the original
      does. */
  lemma CollapseHead(s: string)
    requires |s| > 0
    ensures |CollapseSpaces(s)| > 0 && (IsSpace(CollapseSpaces(s)[0]) <==> IsSpace(s[0]))
  {
  }

  /** Collapsing leaves a single-spaced text with the same words. */
  lemma {:induction false} CollapseSingle(s: string)
    ensures SingleSpaced(CollapseSpaces(s))
    ensures Words(CollapseSpaces(s)) == Words(s)
    decreases |s|
  {
    CollapseWords(s);
    if |s| > 0 {
      var r := CollapseSpaces(s);
      var t := if IsSpace(s[0]) then TrimStart(s[1..]) else s[1..];
      CollapseSingle(t);
      var rest := CollapseSpaces(t);
      assert r == [r[0]] + rest;
      if IsSpace(s[0]) && |t| > 0 {
        CollapseHead(t);
      }
      forall i | 0 <= i < |r| && IsSpace(r[i])
        ensures r[i] == ' ' && (i + 1 < |r| ==> !IsSpace(r[i + 1]))
      {
        if i > 0 {
          assert r[i] == rest[i - 1];
        }
      }
    }
  }

  /** Collapsing keeps the words: each whitespace run becomes one space,
      never none, so neighbouring words stay apart. */
  lemma {:induction false} CollapseWords(s: string)
    ensures Words(CollapseSpaces(s)) == Words(s)
    decreases |s|
  {
    if |s| > 0 {
      var c := CollapseSpaces(s);
      if IsSpace(s[0]) {
        var t := TrimStart(s[1..]);
        CollapseWords(t);
        assert c[0] == ' ' && c[1..] == CollapseSpaces(t);
        WordsTrimStart(s[1..]);
      } else {
        var y := s[1..];
        var cy := CollapseSpaces(y);
        CollapseWords(y);
        assert c == [s[0]] + cy;
        assert s == [s[0]] + y;
        if |y| == 0 {
          WordsConsSpace(s[0], y);
          WordsConsSpace(s[0], cy);
        } else {
          CollapseHead(y);
          if IsSpace(y[0]) {
            WordsConsSpace(s[0], y);
            WordsConsSpace(s[0], cy);
          } else {
            WordsConsWord(s[0], y);
            WordsConsWord(s[0], cy);
          }
        }
      }
    }
  }

  /** A trimmed single-spaced text is its words joined by single spaces. */
  lemma {:induction false} JoinWords(y: string)
    requires SingleSpaced(y)
    requires |y| > 0 ==> !IsSpace(y[0]) && !IsSpace(y[|y| - 1])
    ensures Join(Words(y), " ") == y
    decreases |y|
  {
    if |y| > 0 {
      var n := RunLength(y);
      if n == |y| {
        assert y[..n] == y && y[n..] == [];
      } else {
        FirstGap(y, n);
        SingleSpacedSlice(y, n + 1, |y|);
        JoinWords(y[n + 1..]);
        WordsAfterGap(y, n);
        JoinWordsStep(y, n);
      }
    }
  }

  /** The step of `JoinWords`: the first word, one space, and the rest. */
  lemma JoinWordsStep(y: string, n: nat)
    requires n + 1 < |y| && y[n] == ' '
    requires |Words(y[n + 1..])| > 0
    requires Words(y) == [y[..n]] + Words(y[n + 1..])
    requires Join(Words(y[n + 1..]), " ") == y[n + 1..]
    ensures Join(Words(y), " ") == y
  {
    var z := y[n + 1..];
    JoinCons(y[..n], Words(z));
    assert y == y[..n] + " " + z;
  }

  /** In a trimmed single-spaced text, a word that stops before the end is
      followed by one plain space and then another word. */
  lemma FirstGap(y: string, n: nat)
    requires SingleSpaced(y)
    requires |y| > 0 && !IsSpace(y[0]) && !IsSpace(y[|y| - 1])
    requires n == RunLength(y) < |y|
    ensures n + 1 < |y| && y[n] == ' ' && !IsSpace(y[n + 1])
    ensures !IsSpace(y[n + 1..][0]) && !IsSpace(y[n + 1..][|y| - n - 2])
  {
  }

  /** The words after the first are those after the space that ends it. */
  lemma WordsAfterGap(y: string, n: nat)
    requires |y| > 0 && !IsSpace(y[0])
    requires n == RunLength(y) < |y| && n + 1 < |y| && !IsSpace(y[n + 1])
    ensures Words(y) == [y[..n]] + Words(y[n + 1..])
    ensures |Words(y[n + 1..])| > 0
  {
    assert y[n..][0] == y[n] && y[n..][1..] == y[n + 1..];
  }

  lemma JoinCons(w: string, ws: seq<string>)
    requires |ws| > 0
    ensures Join([w] + ws, " ") == w + " " + Join(ws, " ")
  {
    assert ([w] + ws)[1..] == ws;
  }

  lemma AsciiSuffix(s: string, k: nat)
    requires AllAscii(s) && k <= |s|
    ensures AllAscii(s[k..])
  {
    assert forall i :: 0 <= i < |s[k..]| ==> s[k..][i] == s[k + i];
  }

  lemma AsciiConcat(a: string, b: string)
    requires AllAscii(a) && AllAscii(b)
    ensures AllAscii(a + b)
  {
  }

  /** Collapsing keeps ASCII text ASCII. */
  lemma {:induction false} CollapseAscii(s: string)
    requires AllAscii(s)
    ensures AllAscii(CollapseSpaces(s))
    decreases |s|
  {
    if |s| > 0 {
      AsciiSuffix(s, 1);
      if IsSpace(s[0]) {
        var t := TrimStart(s[1..]);
        AsciiSuffix(s[1..], |s[1..]| - |t|);
        CollapseAscii(t);
        AsciiConcat([' '], CollapseSpaces(t));
      } else {
        CollapseAscii(s[1..]);
        AsciiConcat([s[0]], CollapseSpaces(s[1..]));
      }
    }
  }

  /** Collapsing keeps the visible characters exactly. */
  lemma {:induction false} CollapseVisible(s: string)
    ensures Visible(CollapseSpaces(s)) == Visible(s)
    decreases |s|
  {
    if |s| > 0 {
      var t := if IsSpace(s[0]) then TrimStart(s[1..]) else s[1..];
      CollapseVisible(t);
      var rest := CollapseSpaces(t);
      var head := if IsSpace(s[0]) then ' ' else s[0];
      assert CollapseSpaces(s) == [head] + rest;
      VisibleConcat([head], rest);
      if IsSpace(s[0]) {
        VisibleTrimStart(s[1..]);
      }
      VisibleConcat([s[0]], s[1..]);
      assert s == [s[0]] + s[1..];
    }
  }

  /** Collapsing changes nothing in a text that is already single-spaced. */
  lemma {:induction false} CollapseSingleSpaced(s: string)
    requires SingleSpaced(s)
    ensures CollapseSpaces(s) == s
    decreases |s|
  {
    if |s| > 0 {
      assert SingleSpaced(s[1..]) by {
        forall i | 0 <= i < |s[1..]| && IsSpace(s[1..][i])
          ensures s[1..][i] == ' ' && (i + 1 < |s[1..]| ==> !IsSpace(s[1..][i + 1]))
        {
          assert s[1..][i] == s[i + 1];
        }
      }
      if IsSpace(s[0]) {
        assert |s[1..]| > 0 ==> !IsSpace(s[1..][0]);
        assert TrimStart(s[1..]) == s[1..];
      }
      CollapseSingleSpaced(s[1..]);
      assert s == [s[0]] + s[1..];
    }
  }

  // ---------------------------------------------------------------------
  // Trimming

  lemma SingleSpacedSlice(s: string, a: nat, b: nat)
    requires SingleSpaced(s) && a <= b <= |s|
    ensures SingleSpaced(s[a..b])
  {
    assert forall i :: 0 <= i < b - a ==> s[a..b][i] == s[a + i];
  }

  /** Trimming keeps a text single-spaced. */
  lemma TrimSingle(s: string)
    requires SingleSpaced(s)
    ensures SingleSpaced(Trim(s))
  {
    var t := TrimStart(s);
    assert t == s[|s| - |t|..|s|];
    SingleSpacedSlice(s, |s| - |t|, |s|);
    var r := TrimEnd(t);
    assert r == t[0..|r|];
    SingleSpacedSlice(t, 0, |r|);
  }

  /** Trimming keeps ASCII text ASCII. */
  lemma TrimAscii(s: string)
    requires AllAscii(s)
    ensures AllAscii(Trim(s))
  {
    var t := TrimStart(s);
    AsciiSuffix(s, |s| - |t|);
    var r := TrimEnd(t);
    assert forall i :: 0 <= i < |r| ==> r[i] == t[i];
  }

  /** Dropping a whitespace suffix does not change the visible text. */
  lemma {:induction false} VisibleTrimEnd(s: string)
    ensures Visible(TrimEnd(s)) == Visible(s)
  {
    if |s| > 0 && IsSpace(s[|s| - 1]) {
      var init := s[..|s| - 1];
      VisibleTrimEnd(init);
      VisibleConcat(init, [s[|s| - 1]]);
      assert s == init + [s[|s| - 1]];
    }
  }

  /** Trimming keeps the visible characters. */
  lemma TrimVisible(s: string)
    ensures Visible(Trim(s)) == Visible(s)
  {
    VisibleTrimStart(s);
    VisibleTrimEnd(TrimStart(s));
  }

  // ---------------------------------------------------------------------
  // The whole filter

  /** The output is ASCII, trimmed and single-spaced, and its visible
      characters are exactly the visible ASCII characters of the mapped
      input. */
  lemma TransliterateFacts(m: CharMap, s: string)
    ensures AllAscii(Transliterate(m, s))
    ensures var r := Transliterate(m, s); |r| > 0 ==> !IsSpace(r[0]) && !IsSpace(r[|r| - 1])
    ensures SingleSpaced(Transliterate(m, s))
    ensures Visible(Transliterate(m, s)) == Visible(DropNonAscii(MapChars(m, s)))
    ensures Transliterate(m, s) == Join(Words(DropNonAscii(MapChars(m, s))), " ")
  {
    var d := DropNonAscii(MapChars(m, s));
    CollapseSingle(d);
    CollapseAscii(d);
    CollapseVisible(d);
    TrimSingle(CollapseSpaces(d));
    TrimAscii(CollapseSpaces(d));
    TrimVisible(CollapseSpaces(d));
    WordsTrim(CollapseSpaces(d));
    JoinWords(Trim(CollapseSpaces(d)));
  }

  /** A text with no table characters that is already ASCII, single-spaced
      and trimmed passes through unchanged. */
  lemma Unchanged(m: CharMap, s: string)
    requires forall i :: 0 <= i < |s| ==> s[i] !in m
    requires AllAscii(s) && SingleSpaced(s)
    requires |s| > 0 ==> !IsSpace(s[0]) && !IsSpace(s[|s| - 1])
    ensures Transliterate(m, s) == s
  {
    CollapseSingleSpaced(s);
    TrimTrimmed(s);
  }

  /** With a table whose keys are all non-ASCII (Georgian and Cyrillic
      letters), applying the filter again changes nothing, so the repeated
      `onChange`/`onInput` calls agree. */
  lemma Idempotent(m: CharMap, s: string)
    requires forall c :: c in m ==> !IsAscii(c)
    ensures Transliterate(m, Transliterate(m, s)) == Transliterate(m, s)
  {
    var r := Transliterate(m, s);
    TransliterateFacts(m, s);
    Unchanged(m, r);
  }

  /** The Georgian phrases of the next-action test can never match what the
      message box sends: only the English phrases can decide it. */
  lemma GeorgianPhrasesUnreachable(m: CharMap, s: string)
    ensures var q := Lower(Transliterate(m, s));
      Assistant.IsNextActionQuestion(q) <==>
        Contains(q, "what should i do") || Contains(q, "what next") || Contains(q, "priorit")
  {
    var r := Transliterate(m, s);
    TransliterateFacts(m, s);
    LowerKeepsAscii(r);
    var q := Lower(r);
    AsciiOmitsNonAscii(q, "რა", 0);
    AsciiOmitsNonAscii(q, "რა გავაკეთო", 0);
  }
}
