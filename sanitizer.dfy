/**
 * The text rewriting that `evaluateExpression` applies before handing the
 * expression to the expression library: four glyph substitutions, in order.
 */
module Sanitizer {

  const MultiplyGlyph: char := '×'
  const DivideGlyph: char := '÷'
  const RootGlyph: char := '√'
  const PiGlyph: char := 'π'

  /** The text of the JVM's `Math.PI.toString()`. */
  const PiText: string := "3.141592653589793"

  predicate IsGlyph(c: char) {
    c == MultiplyGlyph || c == DivideGlyph || c == RootGlyph || c == PiGlyph
  }

  predicate GlyphFree(s: string) {
    forall i :: 0 <= i < |s| ==> !IsGlyph(s[i])
  }

  /** Number of occurrences of `c` in `s`. */
  function Count(s: string, c: char): nat {
    if s == [] then 0 else (if s[0] == c then 1 else 0) + Count(s[1..], c)
  }

  /**
   * `s.replace(glyph, rep)` for a one-character pattern: every occurrence of
   * `glyph` is replaced by `rep`, every other character is kept in place.
   */
  function ReplaceChar(s: string, glyph: char, rep: string): (r: string)
    ensures |r| == |s| + Count(s, glyph) * (|rep| - 1)
    ensures glyph !in rep ==> glyph !in r
    ensures forall c :: c in r ==> c in s || c in rep
  {
    if s == [] then []
    else
      var rest := ReplaceChar(s[1..], glyph, rep);
      assert |rest| == |s| - 1 + Count(s[1..], glyph) * (|rep| - 1);
      (if s[0] == glyph then rep else [s[0]]) + rest
  }

  /** The chain `× -> *`, `÷ -> /`, `√ -> sqrt`, `π -> 3.141592653589793`. */
  function Sanitize(s: string): string {
    ReplaceChar(ReplaceChar(ReplaceChar(ReplaceChar(s, MultiplyGlyph, "*"), DivideGlyph, "/"), RootGlyph, "sqrt"), PiGlyph, PiText)
  }

  /** Reference definition: the text each single character stands for. */
  function Spell(c: char): string {
    if c == MultiplyGlyph then "*"
    else if c == DivideGlyph then "/"
    else if c == RootGlyph then "sqrt"
    else if c == PiGlyph then PiText
    else [c]
  }

  /** Reference definition: each character spelt out in turn. */
  function SpellAll(s: string): string {
    if s == [] then [] else Spell(s[0]) + SpellAll(s[1..])
  }

  /** The characters of `s` that are not glyphs, in their order. */
  function Plain(s: string): string {
    if s == [] then [] else (if IsGlyph(s[0]) then [] else [s[0]]) + Plain(s[1..])
  }

  /** `a` occurs in `b` in order, possibly with other characters between. */
  predicate IsSubsequence(a: string, b: string) {
    if a == [] then true
    else if b == [] then false
    else if a[0] == b[0] then IsSubsequence(a[1..], b[1..])
    else IsSubsequence(a, b[1..])
  }

  lemma {:induction false} ReplaceCharAppend(a: string, b: string, glyph: char, rep: string)
    ensures ReplaceChar(a + b, glyph, rep) == ReplaceChar(a, glyph, rep) + ReplaceChar(b, glyph, rep)
  {
    if a != [] {
      var head := if a[0] == glyph then rep else [a[0]];
      assert (a + b)[0] == a[0] && (a + b)[1..] == a[1..] + b;
      ReplaceCharAppend(a[1..], b, glyph, rep);
      calc {
        ReplaceChar(a + b, glyph, rep);
        head + ReplaceChar(a[1..] + b, glyph, rep);
        head + (ReplaceChar(a[1..], glyph, rep) + ReplaceChar(b, glyph, rep));
        (head + ReplaceChar(a[1..], glyph, rep)) + ReplaceChar(b, glyph, rep);
      }
    } else {
      assert a + b == b;
    }
  }

  /** Sanitising a concatenation sanitises each part in place. */
  lemma SanitizeAppend(a: string, b: string)
    ensures Sanitize(a + b) == Sanitize(a) + Sanitize(b)
  {
    var s1a, s1b := ReplaceChar(a, MultiplyGlyph, "*"), ReplaceChar(b, MultiplyGlyph, "*");
    ReplaceCharAppend(a, b, MultiplyGlyph, "*");
    var s2a, s2b := ReplaceChar(s1a, DivideGlyph, "/"), ReplaceChar(s1b, DivideGlyph, "/");
    ReplaceCharAppend(s1a, s1b, DivideGlyph, "/");
    var s3a, s3b := ReplaceChar(s2a, RootGlyph, "sqrt"), ReplaceChar(s2b, RootGlyph, "sqrt");
    ReplaceCharAppend(s2a, s2b, RootGlyph, "sqrt");
    ReplaceCharAppend(s3a, s3b, PiGlyph, PiText);
  }

  /** A single character is sanitised to its spelling. */
  lemma SanitizeChar(c: char)
    ensures Sanitize([c]) == Spell(c)
  {
    ReplaceCharSingle(c, MultiplyGlyph, "*");
    ReplaceCharSingle(c, DivideGlyph, "/");
    ReplaceCharSingle(c, RootGlyph, "sqrt");
    ReplaceCharSingle(c, PiGlyph, PiText);
    if c == MultiplyGlyph {
      ReplaceCharAbsent("*", DivideGlyph, "/");
      ReplaceCharAbsent("*", RootGlyph, "sqrt");
      ReplaceCharAbsent("*", PiGlyph, PiText);
    } else if c == DivideGlyph {
      ReplaceCharAbsent("/", RootGlyph, "sqrt");
      ReplaceCharAbsent("/", PiGlyph, PiText);
    } else if c == RootGlyph {
      ReplaceCharAbsent("sqrt", PiGlyph, PiText);
    }
  }

  lemma ReplaceCharSingle(c: char, glyph: char, rep: string)
    ensures ReplaceChar([c], glyph, rep) == if c == glyph then rep else [c]
  {
    assert [c][1..] == [];
  }

  lemma {:induction false} ReplaceCharAbsent(s: string, glyph: char, rep: string)
    requires glyph !in s
    ensures ReplaceChar(s, glyph, rep) == s
  {
    if s != [] {
      ReplaceCharAbsent(s[1..], glyph, rep);
    }
  }

  /** The chain of four replacements is the per-character spelling. */
  lemma {:induction false} SanitizeIsSpellAll(s: string)
    ensures Sanitize(s) == SpellAll(s)
  {
    if s != [] {
      assert s == [s[0]] + s[1..];
      SanitizeAppend([s[0]], s[1..]);
      SanitizeChar(s[0]);
      SanitizeIsSpellAll(s[1..]);
    }
  }

  lemma {:induction false} SpellAllGlyphFree(s: string)
    ensures GlyphFree(SpellAll(s))
  {
    if s != [] {
      SpellAllGlyphFree(s[1..]);
      var head := Spell(s[0]);
      assert GlyphFree(head);
      assert SpellAll(s) == head + SpellAll(s[1..]);
    }
  }

  /** No multiplication, division, root or pi glyph survives sanitising. */
  lemma SanitizeGlyphFree(s: string)
    ensures GlyphFree(Sanitize(s))
  {
    SanitizeIsSpellAll(s);
    SpellAllGlyphFree(s);
  }

  lemma {:induction false} SpellAllFixesGlyphFree(s: string)
    requires GlyphFree(s)
    ensures SpellAll(s) == s
  {
    if s != [] {
      assert !IsGlyph(s[0]);
      SpellAllFixesGlyphFree(s[1..]);
    }
  }

  /** Glyph-free text passes through unchanged. */
  lemma SanitizeFixesGlyphFree(s: string)
    requires GlyphFree(s)
    ensures Sanitize(s) == s
  {
    SanitizeIsSpellAll(s);
    SpellAllFixesGlyphFree(s);
  }

  /** Sanitising twice is sanitising once. */
  lemma SanitizeIdempotent(s: string)
    ensures Sanitize(Sanitize(s)) == Sanitize(s)
  {
    SanitizeGlyphFree(s);
    SanitizeFixesGlyphFree(Sanitize(s));
  }

  lemma {:induction false} SubsequenceExtend(a: string, b: string, w: string)
    requires IsSubsequence(a, b)
    ensures IsSubsequence(a, w + b)
  {
    if w == [] {
      assert w + b == b;
    } else {
      SubsequenceExtend(a, b, w[1..]);
      SubsequenceSkip(a, w[1..] + b, w[0]);
      assert [w[0]] + (w[1..] + b) == w + b;
    }
  }

  lemma {:induction false} SubsequenceSkip(a: string, b: string, c: char)
    requires IsSubsequence(a, b)
    ensures IsSubsequence(a, [c] + b)
    decreases |a| + |b|, 1
  {
    var cb := [c] + b;
    assert cb[0] == c && cb[1..] == b;
    if a != [] && a[0] == c {
      SubsequenceDropHead(a, b);
    }
  }

  lemma {:induction false} SubsequenceDropHead(a: string, b: string)
    requires a != [] && IsSubsequence(a, b)
    ensures IsSubsequence(a[1..], b)
    decreases |a| + |b|, 0
  {
    if b != [] {
      if a[0] != b[0] {
        SubsequenceDropHead(a, b[1..]);
      }
      SubsequenceSkip(a[1..], b[1..], b[0]);
      assert [b[0]] + b[1..] == b;
    }
  }

  lemma {:induction false} PlainInSpellAll(s: string)
    ensures IsSubsequence(Plain(s), SpellAll(s))
  {
    if s != [] {
      PlainInSpellAll(s[1..]);
      if IsGlyph(s[0]) {
        assert Plain(s) == Plain(s[1..]);
        SubsequenceExtend(Plain(s), SpellAll(s[1..]), Spell(s[0]));
      } else {
        assert Plain(s) == [s[0]] + Plain(s[1..]);
        assert SpellAll(s) == [s[0]] + SpellAll(s[1..]);
      }
    }
  }

  /** Every non-glyph character of the input appears in the output, in order. */
  lemma SanitizeKeepsPlainInOrder(s: string)
    ensures IsSubsequence(Plain(s), Sanitize(s))
  {
    SanitizeIsSpellAll(s);
    PlainInSpellAll(s);
  }

  /** Each `√` grows the text by three characters and each `π` by sixteen. */
  lemma SanitizeLength(s: string)
    ensures |Sanitize(s)| == |s| + 3 * Count(s, RootGlyph) + 16 * Count(s, PiGlyph)
  {
    var s1 := ReplaceChar(s, MultiplyGlyph, "*");
    var s2 := ReplaceChar(s1, DivideGlyph, "/");
    var s3 := ReplaceChar(s2, RootGlyph, "sqrt");
    CountReplaceOther(s, MultiplyGlyph, "*", RootGlyph);
    CountReplaceOther(s1, DivideGlyph, "/", RootGlyph);
    CountReplaceOther(s, MultiplyGlyph, "*", PiGlyph);
    CountReplaceOther(s1, DivideGlyph, "/", PiGlyph);
    CountReplaceOther(s2, RootGlyph, "sqrt", PiGlyph);
  }

  lemma {:induction false} CountReplaceOther(s: string, glyph: char, rep: string, c: char)
    requires c != glyph && c !in rep
    ensures Count(ReplaceChar(s, glyph, rep), c) == Count(s, c)
  {
    if s != [] {
      CountReplaceOther(s[1..], glyph, rep, c);
      CountAppend(if s[0] == glyph then rep else [s[0]], ReplaceChar(s[1..], glyph, rep), c);
      if s[0] == glyph {
        CountAbsent(rep, c);
      }
    }
  }

  lemma {:induction false} CountAppend(a: string, b: string, c: char)
    ensures Count(a + b, c) == Count(a, c) + Count(b, c)
  {
    if a != [] {
      assert (a + b)[0] == a[0] && (a + b)[1..] == a[1..] + b;
      CountAppend(a[1..], b, c);
    } else {
      assert a + b == b;
    }
  }

  lemma {:induction false} CountAbsent(s: string, c: char)
    requires c !in s
    ensures Count(s, c) == 0
  {
    if s != [] {
      CountAbsent(s[1..], c);
    }
  }
}
