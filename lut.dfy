/**
 * The selection logic of the look-up-table pass (src/lut.py): which
 * diffusion profile the scene asks for, which shader variant and which
 * uniforms that profile gets, the `max-curvature` setting that replaces
 * the module default, and the layout of the 256 x 256 RGB readback.
 * The scattering parameters themselves (`calculate_parameters`) are
 * floating-point physics and enter as an input record.
 */
module Lut {
  import opened Common
  import opened Float32
  import opened ShaderText
  import Readback

  /** `LUT_RES = (256, 256)`. */
  const Width: nat := 256
  const Height: nat := 256

  /** `MAX_CURVATURE = 1.0`, the default before a scene is read. */
  const DefaultMaxCurvature: F32 := One

  /** The diffusion profiles, by the values of the `Equation` enum. */
  datatype Equation = Dipole | Gaussian

  function EquationValue(e: Equation): string {
    match e
    case Dipole => "dipole"
    case Gaussian => "gaussian"
  }

  /** Lower case of an ASCII letter; every other character is kept. */
  function LowerChar(c: char): char {
    if 'A' <= c <= 'Z' then (c as int + 32) as char else c
  }

  /**
   * `s.lower()` on ASCII: the result has no upper-case letter, and every
   * character that is not an upper-case letter is kept where it is.
   */
  function Lower(s: string): (r: string)
    ensures |r| == |s|
    ensures forall i :: 0 <= i < |r| ==> !('A' <= r[i] <= 'Z')
    ensures forall i :: 0 <= i < |s| && !('A' <= s[i] <= 'Z') ==> r[i] == s[i]
  {
    seq(|s|, i requires 0 <= i < |s| => LowerChar(s[i]))
  }

  /** Lower-casing twice is lower-casing once. */
  lemma LowerIdempotent(s: string)
    ensures Lower(Lower(s)) == Lower(s)
  {
  }

  /**
   * The `equation` setting: compared in lower case with each profile's name.
   * A profile is selected only by its own name, and nothing is selected when
   * the lower-cased setting is neither name.
   */
  function ParseEquation(name: string): (r: Option<Equation>)
    ensures r.Some? ==> Lower(name) == EquationValue(r.value)
    ensures r.None? <==> forall e: Equation :: Lower(name) != EquationValue(e)
  {
    if Lower(name) == "dipole" then Some(Dipole)
    else if Lower(name) == "gaussian" then Some(Gaussian)
    else None
  }

  /** `a` and `b` differ at most in the case of their letters. */
  predicate SameUpToCase(a: string, b: string) {
    |a| == |b| && forall i :: 0 <= i < |a| ==> LowerChar(a[i]) == LowerChar(b[i])
  }

  /** Two spellings that differ only in letter case are parsed alike. */
  lemma ParseIgnoresCase(a: string, b: string)
    requires SameUpToCase(a, b)
    ensures ParseEquation(a) == ParseEquation(b)
  {
    assert Lower(a) == Lower(b);
  }

  /** The profile names are already lower case. */
  lemma EquationValueLower(e: Equation)
    ensures Lower(EquationValue(e)) == EquationValue(e)
  {
    var v := EquationValue(e);
    forall i | 0 <= i < |v|
      ensures LowerChar(v[i]) == v[i]
    {
    }
  }

  /**
   * A setting selects a profile exactly when it is that profile's name in
   * any mix of letter cases; anything else selects nothing.
   */
  lemma ParseAcceptsExactly(name: string, e: Equation)
    ensures ParseEquation(name) == Some(e) <==> SameUpToCase(name, EquationValue(e))
  {
    EquationValueLower(e);
    var v := EquationValue(e);
    if SameUpToCase(name, v) {
      assert Lower(name) == Lower(v);
      assert "dipole"[0] != "gaussian"[0];
    }
    if ParseEquation(name) == Some(e) {
      assert Lower(name) == v;
      assert Lower(name) == Lower(v);
    }
  }

  /** A setting that is neither name is rejected. */
  lemma ParseRejects(name: string)
    ensures ParseEquation(name) == None <==> !SameUpToCase(name, "dipole") && !SameUpToCase(name, "gaussian")
  {
    ParseAcceptsExactly(name, Dipole);
    ParseAcceptsExactly(name, Gaussian);
  }

  /** The output of `calculate_parameters`, per colour channel. */
  datatype Parameters = Parameters(sigmaTr: Vec3f, albedo: Vec3f, zr: Vec3f, zv: Vec3f)

  /** What a uniform is set to: a vec3 written as raw floats, or a float. */
  datatype UniformValue = Vector(v: Vec3f) | Scalar(x: F32)

  datatype Uniform = Uniform(name: string, value: UniformValue)

  /**
   * The uniforms of the LUT program, in the order they are set: the three
   * dipole terms for the dipole profile only, then the albedo, and the
   * curvature bound last.
   */
  function Uniforms(eq: Equation, p: Parameters, maxCurvature: F32): (us: seq<Uniform>)
    ensures |us| == if eq == Dipole then 5 else 2
    ensures us[|us| - 1] == Uniform("maxCurvature", Scalar(maxCurvature))
  {
    (if eq == Dipole
     then [Uniform("zr", Vector(p.zr)), Uniform("zv", Vector(p.zv)), Uniform("sigmaTr", Vector(p.sigmaTr))]
     else [])
    + [Uniform("albedo", Vector(p.albedo)), Uniform("maxCurvature", Scalar(maxCurvature))]
  }

  /** The value a program ends up with for `name`: the last write, if any. */
  function Lookup(us: seq<Uniform>, name: string): Option<UniformValue> {
    if us == [] then None
    else if us[|us| - 1].name == name then Some(us[|us| - 1].value)
    else Lookup(us[..|us| - 1], name)
  }

  /** No two writes go to the same uniform. */
  predicate DistinctNames(us: seq<Uniform>) {
    forall i, j :: 0 <= i < j < |us| ==> us[i].name != us[j].name
  }

  /** Among distinct writes, the value of a written uniform is what its one write set. */
  lemma {:induction false} LookupWritten(us: seq<Uniform>, i: nat)
    requires DistinctNames(us) && i < |us|
    ensures Lookup(us, us[i].name) == Some(us[i].value)
  {
    if i < |us| - 1 {
      assert us[..|us| - 1][i] == us[i];
      LookupWritten(us[..|us| - 1], i);
    }
  }

  /** A uniform that is never written has no value. */
  lemma {:induction false} LookupUnwritten(us: seq<Uniform>, name: string)
    requires forall i :: 0 <= i < |us| ==> us[i].name != name
    ensures Lookup(us, name) == None
  {
    if us != [] {
      LookupUnwritten(us[..|us| - 1], name);
    }
  }

  /**
   * `zr`, `zv` and `sigmaTr` are set only for the dipole profile; `albedo`
   * and `maxCurvature` are set for both; no uniform is set twice and no
   * other uniform is set.
   */
  lemma UniformRule(eq: Equation, p: Parameters, maxCurvature: F32)
    ensures var us := Uniforms(eq, p, maxCurvature);
            && DistinctNames(us)
            && (forall i :: 0 <= i < |us| ==> us[i].name in {"zr", "zv", "sigmaTr", "albedo", "maxCurvature"})
            && Lookup(us, "albedo") == Some(Vector(p.albedo))
            && Lookup(us, "maxCurvature") == Some(Scalar(maxCurvature))
            && (eq == Dipole ==>
                  && Lookup(us, "zr") == Some(Vector(p.zr))
                  && Lookup(us, "zv") == Some(Vector(p.zv))
                  && Lookup(us, "sigmaTr") == Some(Vector(p.sigmaTr)))
            && (eq == Gaussian ==>
                  Lookup(us, "zr") == None && Lookup(us, "zv") == None && Lookup(us, "sigmaTr") == None)
  {
    var us := Uniforms(eq, p, maxCurvature);
    assert "zr"[1] != "zv"[1] && "zr"[0] != "sigmaTr"[0] && "zv"[0] != "sigmaTr"[0];
    assert "albedo"[0] != "maxCurvature"[0];
    assert "albedo"[0] != "zr"[0] && "albedo"[0] != "sigmaTr"[0];
    assert "maxCurvature"[0] != "zr"[0] && "maxCurvature"[0] != "sigmaTr"[0];
    assert DistinctNames(us);
    if eq == Dipole {
      LookupWritten(us, 0);
      LookupWritten(us, 1);
      LookupWritten(us, 2);
      LookupWritten(us, 3);
      LookupWritten(us, 4);
    } else {
      LookupWritten(us, 0);
      LookupWritten(us, 1);
      LookupUnwritten(us, "zr");
      LookupUnwritten(us, "zv");
      LookupUnwritten(us, "sigmaTr");
    }
  }

  const DiffusionProfile: string := "DIFFUSION_PROFILE"

  /** The word that selects a profile in the fragment stage. */
  function ProfileWord(eq: Equation): string {
    if eq == Gaussian then "GAUSSIAN" else "DIPOLE"
  }

  /** Pass 0: stage substitution, then the profile in the fragment stage. Its vertex stage is pass 1's. */
  function LutProgram(src: string, eq: Equation): (r: Program)
    ensures r.vertexShader == GeometryProgram(src).vertexShader
  {
    Program(VertexText(src), Replace(FragmentText(src), DiffusionProfile, ProfileWord(eq)))
  }

  /**
   * The profile reaches only the fragment stage, and the two profiles give
   * different programs iff the profile placeholder is still in the fragment
   * text after the stage substitution; without the placeholder, pass 0's
   * program is pass 1's.
   */
  lemma ProfileSelectsVariant(src: string)
    ensures LutProgram(src, Dipole).vertexShader == LutProgram(src, Gaussian).vertexShader
    ensures LutProgram(src, Dipole) != LutProgram(src, Gaussian) <==> Occurs(DiffusionProfile, FragmentText(src))
    ensures !Occurs(DiffusionProfile, FragmentText(src)) ==>
              LutProgram(src, Dipole) == GeometryProgram(src) && LutProgram(src, Gaussian) == GeometryProgram(src)
  {
    assert ProfileWord(Dipole)[0] != ProfileWord(Gaussian)[0];
    ReplaceSeparates(FragmentText(src), DiffusionProfile, ProfileWord(Dipole), ProfileWord(Gaussian));
    if !Occurs(DiffusionProfile, FragmentText(src)) {
      ReplaceAbsent(FragmentText(src), DiffusionProfile, ProfileWord(Dipole));
    }
  }

  /** The settings of the scene file the LUT pass reads. */
  datatype LutScene = LutScene(equation: string, maxCurvature: F32)

  /** What the pass hands to the GPU: the program, its uniforms and the readback size. */
  datatype LutJob = LutJob(program: Program, uniforms: seq<Uniform>, readbackSize: nat)

  /**
   * The end of `generate_lut`'s set-up: either the process exits with a
   * status, or the LUT is rendered with the given job and the module's
   * `MAX_CURVATURE` now holds `maxCurvature`.
   */
  datatype LutOutcome = Exit(status: int) | Render(job: LutJob, maxCurvature: F32)

  /** `bytearray(LUT_RES[0] * LUT_RES[1] * 3)`. */
  const LutBufferSize: nat := Width * Height * 3

  /**
   * `generate_lut` without its I/O: parse the profile (exit status 1 when
   * it is unknown), take the scene's `max-curvature` as the new module
   * value, build the program and set its uniforms. `maxCurvature` is the
   * module value before the call.
   */
  function GenerateLut(maxCurvature: F32, scene: LutScene, p: Parameters, src: string): (out: LutOutcome)
    ensures out.Exit? <==> ParseEquation(scene.equation).None?
    ensures out.Exit? ==> out.status == 1
    ensures out.Render? ==> out.maxCurvature == scene.maxCurvature
  {
    match ParseEquation(scene.equation)
    case None => Exit(1)
    case Some(eq) =>
      Render(LutJob(LutProgram(src, eq), Uniforms(eq, p, scene.maxCurvature), LutBufferSize), scene.maxCurvature)
  }

  /**
   * An unknown profile ends the process with status 1 and nothing is built;
   * a known one is rendered with its own shader variant, and the uniform
   * `maxCurvature` is the scene's value whatever the module value was
   * before, which the scene's value replaces.
   */
  lemma GenerateLutSelects(maxCurvature: F32, scene: LutScene, p: Parameters, src: string)
    ensures var out := GenerateLut(maxCurvature, scene, p, src);
            && (out.Exit? <==> ParseEquation(scene.equation) == None)
            && (out.Exit? ==> out.status == 1)
            && (out.Render? ==>
                  && out.job.program == LutProgram(src, ParseEquation(scene.equation).value)
                  && out.maxCurvature == scene.maxCurvature
                  && Lookup(out.job.uniforms, "maxCurvature") == Some(Scalar(scene.maxCurvature))
                  && out.job.readbackSize == 196608)
  {
    var out := GenerateLut(maxCurvature, scene, p, src);
    if out.Render? {
      UniformRule(ParseEquation(scene.equation).value, p, scene.maxCurvature);
    }
  }

  /**
   * The module value before the call is never observed: in particular the
   * default `MAX_CURVATURE` gives the same outcome as any other value. This
   * records that the scene's value is assigned (src/lut.py:58) before the
   * `maxCurvature` uniform reads it (src/lut.py:77).
   */
  lemma DefaultUnobserved(maxCurvature: F32, scene: LutScene, p: Parameters, src: string)
    ensures GenerateLut(DefaultMaxCurvature, scene, p, src) == GenerateLut(maxCurvature, scene, p, src)
  {
  }

  /**
   * The image written from the readback: rows of pixels, three bytes each,
   * taken in buffer order (`Image.frombuffer("RGB", LUT_RES, ...)`).
   */
  function LutImage(buf: seq<Byte>): (img: seq<seq<seq<Byte>>>)
    requires |buf| == LutBufferSize
    ensures |img| == Height
  {
    Readback.Chunks(Readback.Chunks(buf, Width * Height, 3), Height, Width)
  }

  /**
   * The readback is written out with no reordering: pixel `(x, y)` is the
   * three bytes at offset `3 (256 y + x)`, and the rows laid end to end
   * give back exactly the buffer.
   */
  lemma LutImageLayout(buf: seq<Byte>, x: nat, y: nat)
    requires |buf| == LutBufferSize && x < Width && y < Height
    ensures |LutImage(buf)[y]| == Width
    ensures LutImage(buf)[y][x] == buf[3 * (Width * y + x)..3 * (Width * y + x) + 3]
    ensures Readback.Flatten(Readback.Flatten(LutImage(buf))) == buf
  {
    var pixels := Readback.Chunks(buf, Width * Height, 3);
    Readback.ChunksAt(pixels, Height, Width, y);
    Readback.ChunksAt(buf, Width * Height, 3, Width * y + x);
    Readback.FlattenChunks(pixels, Height, Width);
    Readback.FlattenChunks(buf, Width * Height, 3);
  }
}
