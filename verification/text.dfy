/** String helpers shared by the whole model: JavaScript's whitespace class,
    ASCII case mapping, substring search, splitting, joining and number
    formatting. Strings are `seq<char>`. */
module Text {

  /** JavaScript's `\s` class; `String.prototype.trim` strips the same set. */
  predicate IsSpace(c: char) {
    var n := c as int;
    n == 9 || n == 10 || n == 11 || n == 12 || n == 13 || n == 32
    || n == 0xA0 || n == 0x1680 || (0x2000 <= n <= 0x200A)
    || n == 0x2028 || n == 0x2029 || n == 0x202F || n == 0x205F
    || n == 0x3000 || n == 0xFEFF
  }

  predicate NoSpace(s: string) {
    forall i :: 0 <= i < |s| ==> !IsSpace(s[i])
  }

  predicate IsAscii(c: char) {
    c as int <= 0x7F
  }

  predicate AllAscii(s: string) {
    forall i :: 0 <= i < |s| ==> IsAscii(s[i])
  }

  /** Case mapping restricted to ASCII letters. */
  function LowerChar(c: char): char {
    if 'A' <= c <= 'Z' then (c as int + 32) as char else c
  }

  function Lower(s: string): (r: string)
    ensures |r| == |s|
  {
    seq(|s|, i requires 0 <= i < |s| => LowerChar(s[i]))
  }

  lemma LowerKeepsAscii(s: string)
    requires AllAscii(s)
    ensures AllAscii(Lower(s))
  {
  }

  /** `s.includes(p)`. */
  predicate Contains(s: string, p: string) {
    exists i | 0 <= i <= |s| - |p| :: OccursAt(s, p, i)
  }

  predicate OccursAt(s: string, p: string, i: int)
    requires 0 <= i <= |s| - |p|
  {
    s[i..i + |p|] == p
  }

  /** A needle holding a non-ASCII character never occurs in an ASCII text. */
  lemma AsciiOmitsNonAscii(s: string, p: string, k: nat)
    requires AllAscii(s)
    requires k < |p| && !IsAscii(p[k])
    ensures !Contains(s, p)
  {
    forall i | 0 <= i <= |s| - |p|
      ensures !OccursAt(s, p, i)
    {
      assert s[i..i + |p|][k] == s[i + k];
    }
  }

  /** The maximal runs of non-whitespace characters of `s`, in order: the
      non-empty pieces of `s.split(/\s+/)`. */
  function Words(s: string): (r: seq<string>)
    ensures forall i :: 0 <= i < |r| ==> |r[i]| > 0 && NoSpace(r[i])
    decreases |s|
  {
    if |s| == 0 then []
    else if IsSpace(s[0]) then Words(s[1..])
    else
      var n := RunLength(s);
      [s[..n]] + Words(s[n..])
  }

  /** Length of the non-whitespace run at the start of `s`. */
  function RunLength(s: string): (n: nat)
    requires |s| > 0 && !IsSpace(s[0])
    ensures 0 < n <= |s|
    ensures NoSpace(s[..n])
    ensures n < |s| ==> IsSpace(s[n])
    decreases |s|
  {
    if |s| == 1 || IsSpace(s[1]) then 1 else 1 + RunLength(s[1..])
  }

  /** Position of the first `c` in `s`. */
  function IndexOf(s: string, c: char): (i: nat)
    requires c in s
    ensures i < |s| && s[i] == c && c !in s[..i]
  {
    if s[0] == c then 0 else 1 + IndexOf(s[1..], c)
  }

  /** `s.split(c)` for a one-character separator. */
  function Split(s: string, c: char): (r: seq<string>)
    ensures |r| > 0
    decreases |s|
  {
    if c !in s then [s]
    else
      var i := IndexOf(s, c);
      [s[..i]] + Split(s[i + 1..], c)
  }

  /** The first piece of a split is the prefix before the first `c` (all
      of `s` when it holds none). */
  lemma SplitFirst(s: string, c: char)
    ensures c !in Split(s, c)[0]
    ensures |Split(s, c)[0]| <= |s| && s[..|Split(s, c)[0]|] == Split(s, c)[0]
    ensures c !in s ==> Split(s, c)[0] == s
  {
  }

  /** `xs.join(sep)`. */
  function Join(xs: seq<string>, sep: string): string {
    if |xs| == 0 then ""
    else if |xs| == 1 then xs[0]
    else xs[0] + sep + Join(xs[1..], sep)
  }

  /** Splitting at `c` undoes joining with `c` when no piece holds a `c`. */
  lemma {:induction false} IndexOfAfter(a: string, c: char, b: string)
    requires c !in a
    ensures IndexOf(a + [c] + b, c) == |a|
  {
    if |a| > 0 {
      assert (a + [c] + b)[1..] == a[1..] + [c] + b;
      IndexOfAfter(a[1..], c, b);
    }
  }

  /** Splitting a text with a `c` after a `c`-free prefix cuts off that
      prefix. */
  lemma SplitStep(a: string, c: char, b: string)
    requires c !in a
    ensures Split(a + [c] + b, c) == [a] + Split(b, c)
  {
    var s := a + [c] + b;
    IndexOfAfter(a, c, b);
    assert s[|a|] == c;
    assert s[..|a|] == a;
    assert s[|a| + 1..] == b;
  }

  lemma {:induction false} SplitJoin(xs: seq<string>, c: char)
    requires |xs| > 0
    requires forall i :: 0 <= i < |xs| ==> c !in xs[i]
    ensures Split(Join(xs, [c]), c) == xs
  {
    if |xs| == 1 {
      assert Join(xs, [c]) == xs[0];
    } else {
      var rest := Join(xs[1..], [c]);
      assert Join(xs, [c]) == xs[0] + [c] + rest;
      SplitStep(xs[0], c, rest);
      assert forall i :: 0 <= i < |xs[1..]| ==> xs[1..][i] == xs[i + 1];
      SplitJoin(xs[1..], c);
      assert xs == [xs[0]] + xs[1..];
    }
  }

  /** The line-level round trip for a text framed as header, blank line,
      body lines, blank line, footer. */
  lemma SplitFramed(header: string, body: seq<string>, footer: string, c: char)
    requires c !in header && c !in footer
    requires forall i :: 0 <= i < |body| ==> c !in body[i]
    ensures Split(Join([header, ""] + body + ["", footer], [c]), c) == [header, ""] + body + ["", footer]
  {
    var lines := [header, ""] + body + ["", footer];
    forall i | 0 <= i < |lines| ensures c !in lines[i] {
      if 2 <= i < 2 + |body| {
        assert lines[i] == body[i - 2];
      } else if i >= 2 + |body| {
        assert lines[i] == ["", footer][i - 2 - |body|];
      }
    }
    SplitJoin(lines, c);
  }

  lemma JoinFirst(xs: seq<string>, sep: string)
    requires |xs| > 0 && |xs[0]| > 0
    ensures |Join(xs, sep)| > 0 && Join(xs, sep)[0] == xs[0][0]
  {
  }

  function Digit(d: nat): (c: char)
    requires d < 10
    ensures '0' <= c <= '9'
  {
    ('0' as int + d) as char
  }

  /** Decimal rendering of a natural number, as template literals print it. */
  function NatToString(n: nat): (r: string)
    ensures |r| > 0
    ensures forall i :: 0 <= i < |r| ==> '0' <= r[i] <= '9'
  {
    if n < 10 then [Digit(n)] else NatToString(n / 10) + [Digit(n % 10)]
  }

  function TrimStart(s: string): (r: string)
    ensures |r| <= |s| && r == s[|s| - |r|..]
    ensures |r| > 0 ==> !IsSpace(r[0])
    ensures forall i :: 0 <= i < |s| - |r| ==> IsSpace(s[i])
  {
    if |s| > 0 && IsSpace(s[0]) then TrimStart(s[1..]) else s
  }

  function TrimEnd(s: string): (r: string)
    ensures |r| <= |s| && r == s[..|r|]
    ensures |r| > 0 ==> !IsSpace(r[|r| - 1])
    ensures forall i :: |r| <= i < |s| ==> IsSpace(s[i])
  {
    if |s| > 0 && IsSpace(s[|s| - 1]) then TrimEnd(s[..|s| - 1]) else s
  }

  /**
   * `s.trim()`: the result is the slice of `s` that starts after the
   * leading whitespace, and everything outside it is whitespace.
   */
  function Trim(s: string): (r: string)
    ensures |r| > 0 ==> !IsSpace(r[0]) && !IsSpace(r[|r| - 1])
    ensures |s| - |TrimStart(s)| + |r| <= |s|
    ensures r == s[|s| - |TrimStart(s)|..|s| - |TrimStart(s)| + |r|]
    ensures forall i :: 0 <= i < |s| - |TrimStart(s)| ==> IsSpace(s[i])
    ensures forall i :: |s| - |TrimStart(s)| + |r| <= i < |s| ==> IsSpace(s[i])
  {
    var t := TrimStart(s);
    var r := TrimEnd(t);
    TrimSlices(s, t, r);
    r
  }

  /** The slice and whitespace facts of `Trim`, from those of its two halves. */
  lemma TrimSlices(s: string, t: string, r: string)
    requires |t| <= |s| && t == s[|s| - |t|..]
    requires |r| <= |t| && r == t[..|r|]
    requires forall j :: |r| <= j < |t| ==> IsSpace(t[j])
    ensures r == s[|s| - |t|..|s| - |t| + |r|]
    ensures forall i :: |s| - |t| + |r| <= i < |s| ==> IsSpace(s[i])
  {
    var k := |s| - |t|;
    forall i | k + |r| <= i < |s|
      ensures IsSpace(s[i])
    {
      assert s[i] == t[i - k];
    }
  }

  /** Trimming leaves a string with no surrounding whitespace unchanged. */
  lemma TrimTrimmed(s: string)
    requires |s| > 0 ==> !IsSpace(s[0]) && !IsSpace(s[|s| - 1])
    ensures Trim(s) == s
  {
  }

  /** Lower-casing works character by character, so it distributes over `+`. */
  lemma LowerConcat(a: string, b: string)
    ensures Lower(a + b) == Lower(a) + Lower(b)
  {
    assert forall i :: 0 <= i < |a + b| ==> Lower(a + b)[i] == (Lower(a) + Lower(b))[i];
  }

  /** A run that ends at the end of a word ends there whatever follows the space. */
  lemma {:induction false} RunLengthBeforeSpace(a: string, t: string)
    requires |a| > 0 && !IsSpace(a[0])
    requires |t| > 0 && IsSpace(t[0])
    ensures RunLength(a + t) == RunLength(a)
    decreases |a|
  {
    if |a| == 1 {
      assert (a + t)[1] == t[0];
    } else if IsSpace(a[1]) {
      assert (a + t)[1] == a[1];
    } else {
      assert (a + t)[1] == a[1];
      assert (a + t)[1..] == a[1..] + t;
      RunLengthBeforeSpace(a[1..], t);
    }
  }

  /** Splitting two texts joined by a space gives the words of each, in order. */
  lemma {:induction false} WordsConcat(a: string, b: string)
    ensures Words(a + " " + b) == Words(a) + Words(b)
    decreases |a|
  {
    var s := a + " " + b;
    if |a| == 0 {
      assert s[0] == ' ' && s[1..] == b;
    } else if IsSpace(a[0]) {
      assert s[0] == a[0] && s[1..] == a[1..] + " " + b;
      WordsConcat(a[1..], b);
    } else {
      assert s == a + (" " + b);
      RunLengthBeforeSpace(a, " " + b);
      var n := RunLength(a);
      assert s[..n] == a[..n];
      assert s[n..] == a[n..] + " " + b;
      WordsConcat(a[n..], b);
    }
  }

  /** A character before whitespace (or before nothing) is a word of its own. */
  lemma WordsConsSpace(c: char, y: string)
    requires !IsSpace(c) && (|y| == 0 || IsSpace(y[0]))
    ensures Words([c] + y) == [[c]] + Words(y)
  {
    var s := [c] + y;
    assert RunLength(s) == 1;
    assert s[..1] == [c] && s[1..] == y;
  }

  /** A character before a word joins that word. */
  lemma WordsConsWord(c: char, y: string)
    requires !IsSpace(c) && |y| > 0 && !IsSpace(y[0])
    ensures |Words(y)| > 0 && Words([c] + y) == [[c] + Words(y)[0]] + Words(y)[1..]
  {
    var s := [c] + y;
    var k := RunLength(y);
    assert s[1] == y[0] && s[1..] == y;
    assert RunLength(s) == 1 + k;
    assert s[..1 + k] == [c] + y[..k];
    assert s[1 + k..] == y[k..];
  }

  /** Leading whitespace separates no words. */
  lemma {:induction false} WordsTrimStart(y: string)
    ensures Words(TrimStart(y)) == Words(y)
    decreases |y|
  {
    if |y| > 0 && IsSpace(y[0]) {
      WordsTrimStart(y[1..]);
    }
  }

  /** Trailing whitespace separates no words. */
  lemma {:induction false} WordsAppendBlank(a: string, e: string)
    requires forall i :: 0 <= i < |e| ==> IsSpace(e[i])
    ensures Words(a + e) == Words(a)
    decreases |a| + |e|
  {
    if |a| == 0 {
      assert a + e == e;
      if |e| > 0 {
        WordsAppendBlank(a, e[1..]);
        assert a + e[1..] == e[1..];
      }
    } else if IsSpace(a[0]) {
      assert (a + e)[0] == a[0] && (a + e)[1..] == a[1..] + e;
      WordsAppendBlank(a[1..], e);
    } else if |e| == 0 {
      assert a + e == a;
    } else {
      RunLengthBeforeSpace(a, e);
      var n := RunLength(a);
      assert (a + e)[..n] == a[..n];
      assert (a + e)[n..] == a[n..] + e;
      WordsAppendBlank(a[n..], e);
    }
  }

  /** Dropping trailing whitespace keeps the words. */
  lemma WordsTrimEnd(t: string)
    ensures Words(TrimEnd(t)) == Words(t)
  {
    var r := TrimEnd(t);
    var e := t[|r|..];
    assert t == r + e;
    forall i | 0 <= i < |e|
      ensures IsSpace(e[i])
    {
      assert e[i] == t[|r| + i];
    }
    WordsAppendBlank(r, e);
  }

  /** Trimming keeps the words. */
  lemma WordsTrim(y: string)
    ensures Words(Trim(y)) == Words(y)
  {
    WordsTrimStart(y);
    WordsTrimEnd(TrimStart(y));
  }

  /** A non-empty text without whitespace is a single word. */
  lemma WordsSingle(w: string)
    requires |w| > 0 && NoSpace(w)
    ensures Words(w) == [w]
  {
    var n := RunLength(w);
    assert n == |w|;
    assert w[..n] == w && w[n..] == [];
  }

  /** `s.endsWith(p)`. */
  predicate EndsWith(s: string, p: string) {
    |p| <= |s| && s[|s| - |p|..] == p
  }

  /** Only texts whose last two characters agree can end in the same suffix. */
  lemma EndsWithLastTwo(a: string, r: string, p: string)
    requires |r| >= 2 && |p| >= 2
    requires EndsWith(a + r, p)
    ensures p[|p| - 2] == r[|r| - 2]
  {
    var s := a + r;
    assert s[|s| - 2] == r[|r| - 2];
    assert s[|s| - 2] == s[|s| - |p|..][|p| - 2];
  }

  /** A text contains its own suffix. */
  lemma ContainsSuffix(a: string, p: string)
    ensures Contains(a + p, p)
  {
    assert (a + p)[|a|..|a| + |p|] == p;
    assert OccursAt(a + p, p, |a|);
  }

  /** Prepending to a text keeps what it contains. */
  lemma ContainsPrepend(a: string, s: string, p: string)
    requires Contains(s, p)
    ensures Contains(a + s, p)
  {
    var i :| 0 <= i <= |s| - |p| && OccursAt(s, p, i);
    assert (a + s)[|a| + i..|a| + i + |p|] == s[i..i + |p|];
    assert OccursAt(a + s, p, |a| + i);
  }

  /** Appending to a text keeps what it contains. */
  lemma ContainsExtend(s: string, p: string, t: string)
    requires Contains(s, p)
    ensures Contains(s + t, p)
  {
    var i :| 0 <= i <= |s| - |p| && OccursAt(s, p, i);
    assert (s + t)[i..i + |p|] == s[i..i + |p|];
    assert OccursAt(s + t, p, i);
  }
}
