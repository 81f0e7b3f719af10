/**
 * Shader variants by text substitution. Each pass keeps one source file for
 * both stages; the stage and the build options are chosen by replacing
 * placeholder words with Python's `str.replace`, which replaces every
 * occurrence, scanning left to right without overlaps.
 */
module ShaderText {

  /** `s` has `p` at position `i`. */
  predicate PrefixAt(p: string, s: string, i: nat) {
    i + |p| <= |s| && s[i..i + |p|] == p
  }

  /** `p in s`. */
  predicate Occurs(p: string, s: string) {
    exists i: nat :: i <= |s| && PrefixAt(p, s, i)
  }

  /**
   * `s.replace(pat, sub)` for a non-empty `pat`. A replacement as long as the
   * pattern keeps the length, and one at least as long never shortens the text.
   */
  function Replace(s: string, pat: string, sub: string): (r: string)
    requires |pat| > 0
    ensures |sub| == |pat| ==> |r| == |s|
    ensures |pat| <= |sub| ==> |s| <= |r|
    decreases |s|
  {
    if s == [] then []
    else if pat <= s then sub + Replace(s[|pat|..], pat, sub)
    else [s[0]] + Replace(s[1..], pat, sub)
  }

  /** How many occurrences `Replace` substitutes. */
  function Count(s: string, pat: string): nat
    requires |pat| > 0
    decreases |s|
  {
    if s == [] then 0
    else if pat <= s then 1 + Count(s[|pat|..], pat)
    else Count(s[1..], pat)
  }

  /** An occurrence at the front of `s[1..]` or later is an occurrence in `s`. */
  lemma OccursTail(p: string, s: string, i: nat)
    requires |s| > 0 && i <= |s| - 1 && PrefixAt(p, s[1..], i)
    ensures Occurs(p, s)
  {
    assert s[1..][i..i + |p|] == s[i + 1..i + 1 + |p|];
    assert PrefixAt(p, s, i + 1);
  }

  /** Without an occurrence, `Replace` returns the text unchanged. */
  lemma {:induction false} ReplaceAbsent(s: string, pat: string, sub: string)
    requires |pat| > 0 && !Occurs(pat, s)
    ensures Replace(s, pat, sub) == s
    ensures Count(s, pat) == 0
    decreases |s|
  {
    if s != [] {
      assert !PrefixAt(pat, s, 0);
      assert !(pat <= s);
      if Occurs(pat, s[1..]) {
        var i: nat :| i <= |s[1..]| && PrefixAt(pat, s[1..], i);
        OccursTail(pat, s, i);
      }
      ReplaceAbsent(s[1..], pat, sub);
    }
  }

  /** Every substitution trades `|pat|` characters for `|sub|`. */
  lemma {:induction false} ReplaceLength(s: string, pat: string, sub: string)
    requires |pat| > 0
    ensures |Replace(s, pat, sub)| + Count(s, pat) * |pat| == |s| + Count(s, pat) * |sub|
    decreases |s|
  {
    if s != [] {
      if pat <= s {
        var t := s[|pat|..];
        var c := Count(t, pat);
        ReplaceLength(t, pat, sub);
        assert |Replace(s, pat, sub)| == |sub| + |Replace(t, pat, sub)| && Count(s, pat) == 1 + c;
        OneMoreSubstitution(|Replace(t, pat, sub)|, |t|, c, |pat|, |sub|);
      } else {
        ReplaceLength(s[1..], pat, sub);
      }
    }
  }

  /** The length balance of `ReplaceLength`, carried over one more substitution. */
  lemma OneMoreSubstitution(lr: int, lt: int, c: nat, p: nat, q: nat)
    requires lr + c * p == lt + c * q
    ensures (q + lr) + (1 + c) * p == (p + lt) + (1 + c) * q
  {
    assert (1 + c) * p == p + c * p;
    assert (1 + c) * q == q + c * q;
  }

  /** With an occurrence, at least one substitution happens. */
  lemma {:induction false} OccursCounts(s: string, pat: string)
    requires |pat| > 0 && Occurs(pat, s)
    ensures Count(s, pat) > 0
    decreases |s|
  {
    var i: nat :| i <= |s| && PrefixAt(pat, s, i);
    if !(pat <= s) {
      assert i != 0;
      assert s[1..][i - 1..i - 1 + |pat|] == s[i..i + |pat|];
      assert PrefixAt(pat, s[1..], i - 1);
      OccursCounts(s[1..], pat);
    }
  }

  /** Dropping the first character moves every position one to the left. */
  lemma PrefixAtTail(pat: string, s: string, j: nat)
    requires 0 < |s|
    ensures PrefixAt(pat, s[1..], j) <==> PrefixAt(pat, s, j + 1)
  {
    if j + 1 + |pat| <= |s| {
      assert s[1..][j..j + |pat|] == s[j + 1..j + 1 + |pat|];
    }
  }

  /** A leftmost occurrence past the first character is one position further left in `s[1..]`. */
  lemma LeftmostInTail(pat: string, s: string, i: nat)
    requires 0 < i && PrefixAt(pat, s, i)
    requires forall j :: 0 <= j < i ==> !PrefixAt(pat, s, j)
    ensures PrefixAt(pat, s[1..], i - 1)
    ensures forall j :: 0 <= j < i - 1 ==> !PrefixAt(pat, s[1..], j)
  {
    PrefixAtTail(pat, s, i - 1);
    forall j | 0 <= j < i - 1
      ensures !PrefixAt(pat, s[1..], j)
    {
      PrefixAtTail(pat, s, j);
    }
  }

  /**
   * The leftmost occurrence is replaced by `sub` itself, at its own
   * position; the text before it is kept and the scan resumes after it.
   * With `ReplaceAbsent` this determines `Replace` completely.
   */
  lemma {:induction false} ReplaceFirst(s: string, pat: string, sub: string, i: nat)
    requires |pat| > 0 && PrefixAt(pat, s, i)
    requires forall j :: 0 <= j < i ==> !PrefixAt(pat, s, j)
    ensures Replace(s, pat, sub) == s[..i] + sub + Replace(s[i + |pat|..], pat, sub)
    decreases i
  {
    if i == 0 {
      assert pat <= s;
    } else {
      assert !PrefixAt(pat, s, 0);
      assert !(pat <= s);
      var t := s[1..];
      assert Replace(s, pat, sub) == [s[0]] + Replace(t, pat, sub);
      LeftmostInTail(pat, s, i);
      ReplaceFirst(t, pat, sub, i - 1);
      assert t[i - 1 + |pat|..] == s[i + |pat|..];
      assert [s[0]] + t[..i - 1] == s[..i];
    }
  }

  /** A positive factor keeps products apart. */
  lemma MulStrict(c: nat, x: nat, y: nat)
    requires c > 0 && x < y
    ensures c * x < c * y
  {
    assert c * y == c * x + c * (y - x);
  }

  /** Two different replacement texts give different results wherever `pat` occurs. */
  lemma ReplaceDistinguishes(s: string, pat: string, a: string, b: string)
    requires |pat| > 0 && Occurs(pat, s) && a != b
    ensures Replace(s, pat, a) != Replace(s, pat, b)
  {
    OccursCounts(s, pat);
    var c := Count(s, pat);
    if |a| < |b| {
      MulStrict(c, |a|, |b|);
      ReplaceLength(s, pat, a);
      ReplaceLength(s, pat, b);
    } else if |b| < |a| {
      MulStrict(c, |b|, |a|);
      ReplaceLength(s, pat, a);
      ReplaceLength(s, pat, b);
    } else {
      ReplaceSameLength(s, pat, a, b);
    }
  }

  lemma {:induction false} ReplaceSameLength(s: string, pat: string, a: string, b: string)
    requires |pat| > 0 && Count(s, pat) > 0 && a != b && |a| == |b|
    ensures Replace(s, pat, a) != Replace(s, pat, b)
    decreases |s|
  {
    var ra, rb := Replace(s, pat, a), Replace(s, pat, b);
    if pat <= s {
      assert ra[..|a|] == a && rb[..|b|] == b;
    } else {
      ReplaceSameLength(s[1..], pat, a, b);
      assert ra[1..] == Replace(s[1..], pat, a) && rb[1..] == Replace(s[1..], pat, b);
    }
  }

  /**
   * The replacement text is visible in the result exactly when the
   * placeholder occurs: two choices give the same text iff they are the
   * same choice or there is nothing to replace.
   */
  lemma ReplaceSeparates(s: string, pat: string, a: string, b: string)
    requires |pat| > 0
    ensures Replace(s, pat, a) == Replace(s, pat, b) <==> a == b || !Occurs(pat, s)
  {
    if !Occurs(pat, s) {
      ReplaceAbsent(s, pat, a);
      ReplaceAbsent(s, pat, b);
    } else if a != b {
      ReplaceDistinguishes(s, pat, a, b);
    }
  }

  /** The two stage texts a program is built from. */
  datatype Program = Program(vertexShader: string, fragmentShader: string)

  const ShaderType: string := "SHADER_TYPE"
  const VertexStage: string := "VERTEX_SHADER"
  const FragmentStage: string := "FRAGMENT_SHADER"
  const SpecularOption: string := "SPECULAR_OPTION"
  const WithSpecular: string := "WITH_SPECULAR"
  const WithoutSpecular: string := "WITHOUT_SPECULAR"

  /** The vertex text of a pass: the stage placeholder set to the vertex stage. */
  function VertexText(src: string): string {
    Replace(src, ShaderType, VertexStage)
  }

  /** The fragment text of a pass before its options are set. */
  function FragmentText(src: string): string {
    Replace(src, ShaderType, FragmentStage)
  }

  /**
   * Pass 1, the G-buffer pass: only the stage is substituted, so the two
   * stages get the same text iff the source does not name its stage.
   */
  function GeometryProgram(src: string): (r: Program)
    ensures r.vertexShader == r.fragmentShader <==> !Occurs(ShaderType, src)
  {
    StagesDiffer(src);
    Program(VertexText(src), FragmentText(src))
  }

  /**
   * Pass 2, the shading pass: the fragment stage also sets the specular
   * option. Its vertex stage is pass 1's.
   */
  function ShadingProgram(src: string, specularOn: bool): (r: Program)
    ensures r.vertexShader == GeometryProgram(src).vertexShader
  {
    Program(VertexText(src),
            Replace(FragmentText(src), SpecularOption, if specularOn then WithSpecular else WithoutSpecular))
  }

  /** The two stages of a pass get different texts iff the source names its stage. */
  lemma StagesDiffer(src: string)
    ensures VertexText(src) != FragmentText(src) <==> Occurs(ShaderType, src)
    ensures !Occurs(ShaderType, src) ==> VertexText(src) == src && FragmentText(src) == src
  {
    assert VertexStage[0] != FragmentStage[0];
    ReplaceSeparates(src, ShaderType, VertexStage, FragmentStage);
    if !Occurs(ShaderType, src) {
      ReplaceAbsent(src, ShaderType, VertexStage);
      ReplaceAbsent(src, ShaderType, FragmentStage);
    }
  }

  /**
   * The `specular-on` setting reaches only the fragment stage, and changes
   * it iff the option placeholder is still in the fragment text after the
   * stage substitution; without the placeholder, pass 2's program is pass 1's.
   */
  lemma SpecularToggle(src: string)
    ensures ShadingProgram(src, true).vertexShader == ShadingProgram(src, false).vertexShader
    ensures ShadingProgram(src, true) != ShadingProgram(src, false) <==> Occurs(SpecularOption, FragmentText(src))
    ensures !Occurs(SpecularOption, FragmentText(src)) ==>
              ShadingProgram(src, true) == GeometryProgram(src) && ShadingProgram(src, false) == GeometryProgram(src)
  {
    assert WithSpecular[4] != WithoutSpecular[4];
    ReplaceSeparates(FragmentText(src), SpecularOption, WithSpecular, WithoutSpecular);
    if !Occurs(SpecularOption, FragmentText(src)) {
      ReplaceAbsent(FragmentText(src), SpecularOption, WithSpecular);
    }
  }
}
