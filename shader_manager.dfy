/**
 * Shader bookkeeping: the key that identifies a shader source (its type and
 * path) with the order and equality a `std::map` needs, a shader object's
 * loaded/deleted life cycle, and the manager's factory.
 *
 * The file system and the GL driver are not modelled; what they answer during
 * one load (does the file open, which name glCreateShader hands out, does the
 * compile succeed, what the compile log says) is a `GlOracle` parameter.
 */
module ShaderManager {
  import opened Wrappers

  /** A GLuint or GLenum: a 32-bit unsigned integer. */
  type GLuint = x: int | 0 <= x < 0x1_0000_0000

  /** What identifies a shader source. */
  datatype ShaderInfo = ShaderInfo(shaderPath: string, shaderType: GLuint)

  /** std::string's operator<: lexicographic by character code, a proper prefix first. */
  predicate PathLess(a: string, b: string)
  {
    if a == [] then b != []
    else if b == [] then false
    else if a[0] != b[0] then a[0] < b[0]
    else PathLess(a[1..], b[1..])
  }

  /** ShaderInfo::operator<: by type first, ties broken by path. */
  predicate Less(a: ShaderInfo, b: ShaderInfo)
  {
    if a.shaderType != b.shaderType then a.shaderType < b.shaderType
    else PathLess(a.shaderPath, b.shaderPath)
  }

  /** ShaderInfo::operator==: path and type both equal. */
  predicate Equal(a: ShaderInfo, b: ShaderInfo)
  {
    a.shaderPath == b.shaderPath && a.shaderType == b.shaderType
  }

  /** ShaderInfo::isValid: a path is given and the type is not zero. */
  predicate IsValid(info: ShaderInfo)
  {
    info.shaderPath != [] && info.shaderType != 0
  }

  lemma {:induction false} PathLessIrreflexive(a: string)
    ensures !PathLess(a, a)
    decreases |a|
  {
    if a != [] {
      PathLessIrreflexive(a[1..]);
    }
  }

  lemma {:induction false} PathLessAsymmetric(a: string, b: string)
    requires PathLess(a, b)
    ensures !PathLess(b, a)
    decreases |a|
  {
    if a != [] && b != [] && a[0] == b[0] {
      PathLessAsymmetric(a[1..], b[1..]);
    }
  }

  lemma {:induction false} PathLessTransitive(a: string, b: string, c: string)
    requires PathLess(a, b) && PathLess(b, c)
    ensures PathLess(a, c)
    decreases |a|
  {
    if a != [] && a[0] == b[0] && b[0] == c[0] {
      PathLessTransitive(a[1..], b[1..], c[1..]);
    }
  }

  lemma {:induction false} PathLessConnected(a: string, b: string)
    requires a != b
    ensures PathLess(a, b) || PathLess(b, a)
    decreases |a|
  {
    if a != [] && b != [] && a[0] == b[0] {
      assert a == [a[0]] + a[1..] && b == [b[0]] + b[1..];
      PathLessConnected(a[1..], b[1..]);
    }
  }

  /** operator< is a strict order: irreflexive, asymmetric and transitive. */
  lemma LessIsStrictOrder(a: ShaderInfo, b: ShaderInfo, c: ShaderInfo)
    ensures !Less(a, a)
    ensures Less(a, b) ==> !Less(b, a)
    ensures Less(a, b) && Less(b, c) ==> Less(a, c)
  {
    PathLessIrreflexive(a.shaderPath);
    if Less(a, b) && a.shaderType == b.shaderType {
      PathLessAsymmetric(a.shaderPath, b.shaderPath);
    }
    if Less(a, b) && Less(b, c) && a.shaderType == b.shaderType == c.shaderType {
      PathLessTransitive(a.shaderPath, b.shaderPath, c.shaderPath);
    }
  }

  /**
   * operator== agrees with operator<: two keys are equal exactly when neither
   * is less than the other, and exactly when they are the same value. So the
   * order is total and a std::map keyed by ShaderInfo treats == keys as one.
   */
  lemma EqualIffEquivalent(a: ShaderInfo, b: ShaderInfo)
    ensures Equal(a, b) <==> !Less(a, b) && !Less(b, a)
    ensures Equal(a, b) <==> a == b
  {
    if Equal(a, b) {
      PathLessIrreflexive(a.shaderPath);
    } else if a.shaderType == b.shaderType {
      PathLessConnected(a.shaderPath, b.shaderPath);
    }
  }

  /** What the file system and the GL driver answer during one load. */
  datatype GlOracle = GlOracle(fileOpens: bool, createdId: GLuint, compiles: bool, compileLog: string)

  /**
   * glGetShaderInfoLog: the compile log of the shader object named `id`; for a
   * name that is not a shader object GL raises GL_INVALID_VALUE and writes
   * nothing, so the caller's buffer keeps whatever it held.
   */
  function InfoLog(o: GlOracle, id: GLuint): Option<string>
  {
    if id != 0 && id == o.createdId then Some(o.compileLog) else None
  }

  /** The log that load prints after a failed compile, as written: fetched after the name was reset to 0. */
  function CompileFailureLogAsWritten(o: GlOracle): Option<string>
  {
    var id := 0;  // the failed shader was deleted and its name reset to 0
    InfoLog(o, id)
  }

  /** The log that load prints after a failed compile, fetched while the shader object still exists. */
  function CompileFailureLog(o: GlOracle): (r: Option<string>)
    ensures o.createdId != 0 ==> r == Some(o.compileLog)
  {
    InfoLog(o, o.createdId)
  }

  /**
   * As written, the compiler's message never reaches the log, whatever GL
   * answers: the buffer printed is never filled. Fetched before the reset,
   * the log of any shader object that was created is the compiler's.
   */
  lemma CompileLogLost(o: GlOracle)
    ensures CompileFailureLogAsWritten(o) == None
    ensures o.createdId != 0 ==> CompileFailureLog(o) != CompileFailureLogAsWritten(o)
  {
  }

  /**
   * Why a load threw: the file did not open, or the compile failed. A failed
   * compile also carries the log that load printed just before throwing
   * (`None`: the buffer was never filled).
   */
  datatype LoadError = CannotOpen(path: string) | CompileFailed(path: string, log: Option<string>)

  /** How a load ended: it loaded, it only warned that the shader was already loaded, or it threw. */
  datatype LoadOutcome = Loaded | AlreadyLoaded | Thrown(error: LoadError)

  /** The fields of a Shader. */
  datatype ShaderState = ShaderState(shaderId: GLuint, isLoaded: bool, path: string, shaderType: GLuint)

  /** A shader that is not loaded holds no GL shader object. */
  predicate HoldsNoObjectUnlessLoaded(s: ShaderState)
  {
    !s.isLoaded ==> s.shaderId == 0
  }

  /** Shader::deleteShader on state `s`. */
  function Deleted(s: ShaderState): (r: ShaderState)
    ensures !r.isLoaded && r.path == s.path && r.shaderType == s.shaderType
    ensures s.isLoaded ==> r.shaderId == 0
    ensures !s.isLoaded ==> r == s
  {
    if s.isLoaded then s.(shaderId := 0, isLoaded := false) else s
  }

  /** Deleting twice is deleting once, and a deleted shader holds no object. */
  lemma DeleteIdempotent(s: ShaderState)
    requires HoldsNoObjectUnlessLoaded(s)
    ensures Deleted(Deleted(s)) == Deleted(s)
    ensures Deleted(s).shaderId == 0
  {
  }

  /**
   * Shader::load on state `s`, as written: the new state and how the call
   * ended. After a failed compile the log is fetched for name 0, so the error
   * never carries the compiler's message.
   */
  function LoadStep(s: ShaderState, path: string, shaderType: GLuint, o: GlOracle): (r: (ShaderState, LoadOutcome))
    ensures s.isLoaded ==> r == (s, AlreadyLoaded)
    ensures r.1 == AlreadyLoaded <==> s.isLoaded
    ensures r.1 == Loaded <==> !s.isLoaded && o.fileOpens && o.compiles
    ensures r.1.Thrown? <==> !s.isLoaded && !(o.fileOpens && o.compiles)
    ensures r.1 == Loaded ==> r.0 == ShaderState(o.createdId, true, path, shaderType)
    ensures r.1.Thrown? ==> !r.0.isLoaded && r.0.path == s.path && r.0.shaderType == s.shaderType
    ensures !s.isLoaded && !o.fileOpens ==> r == (s, Thrown(CannotOpen(path)))
    ensures !s.isLoaded && o.fileOpens && !o.compiles ==>
      r == (s.(shaderId := 0), Thrown(CompileFailed(path, None)))
    ensures HoldsNoObjectUnlessLoaded(s) ==> HoldsNoObjectUnlessLoaded(r.0)
  {
    if s.isLoaded then (s, AlreadyLoaded)
    else if !o.fileOpens then (s, Thrown(CannotOpen(path)))
    else if !o.compiles then (s.(shaderId := 0), Thrown(CompileFailed(path, CompileFailureLogAsWritten(o))))
    else (ShaderState(o.createdId, true, path, shaderType), Loaded)
  }

  /**
   * Shader::load with the info log fetched before the failed shader is
   * deleted: the same new state and the same outcome, except that a failed
   * compile reports the compiler's log.
   */
  function LoadStepCorrected(s: ShaderState, path: string, shaderType: GLuint, o: GlOracle): (r: (ShaderState, LoadOutcome))
    ensures r.0 == LoadStep(s, path, shaderType, o).0
    ensures r.1.Thrown? <==> LoadStep(s, path, shaderType, o).1.Thrown?
    ensures !(r.1.Thrown? && o.fileOpens) ==> r.1 == LoadStep(s, path, shaderType, o).1
    ensures r.1.Thrown? && o.fileOpens && o.createdId != 0 ==> r.1.error == CompileFailed(path, Some(o.compileLog))
  {
    if s.isLoaded then (s, AlreadyLoaded)
    else if !o.fileOpens then (s, Thrown(CannotOpen(path)))
    else if !o.compiles then (s.(shaderId := 0), Thrown(CompileFailed(path, CompileFailureLog(o))))
    else (ShaderState(o.createdId, true, path, shaderType), Loaded)
  }

  class Shader {
    var shaderId: GLuint
    var isLoaded: bool
    var path: string
    var shaderType: GLuint

    function State(): ShaderState
      reads this
    {
      ShaderState(shaderId, isLoaded, path, shaderType)
    }

    ghost predicate Valid()
      reads this
    {
      HoldsNoObjectUnlessLoaded(State())
    }

    /** A shader with no GL object, not loaded. */
    constructor ()
      ensures Valid() && shaderId == 0 && !isLoaded && path == []
    {
      shaderId := 0;
      isLoaded := false;
      path := [];
      shaderType := 0;
    }

    /** Release the GL object if one is loaded. */
    method DeleteShader()
      requires Valid()
      modifies this
      ensures Valid() && State() == Deleted(old(State()))
    {
      if isLoaded {
        // The GL shader object is deleted.
        shaderId := 0;
        isLoaded := false;
      }
    }

    /**
     * Read and compile the shader at `shaderPath`. A loaded shader only warns;
     * an unreadable file or a failed compile throws.
     */
    method Load(shaderPath: string, shaderType: GLuint, o: GlOracle) returns (outcome: LoadOutcome)
      requires Valid()
      modifies this
      ensures Valid() && (State(), outcome) == LoadStep(old(State()), shaderPath, shaderType, o)
    {
      if isLoaded {
        // A loaded shader is left as it is, with a warning.
        return AlreadyLoaded;
      }
      if !o.fileOpens {
        return Thrown(CannotOpen(shaderPath));
      }
      shaderId := o.createdId;
      if !o.compiles {
        // The GL shader object is deleted.
        shaderId := 0;
        var log := InfoLog(o, shaderId);
        return Thrown(CompileFailed(shaderPath, log));
      }
      this.path := shaderPath;
      this.shaderType := shaderType;
      isLoaded := true;
      return Loaded;
    }
  }

  /** ShaderManager::create: a new shader loaded from `info`, or the error its load threw. */
  method Create(info: ShaderInfo, o: GlOracle) returns (r: Result<Shader, LoadError>)
    ensures r.Success? <==> o.fileOpens && o.compiles
    ensures r.Success? ==> && fresh(r.value) && r.value.Valid()
                           && r.value.State() == ShaderState(o.createdId, true, info.shaderPath, info.shaderType)
    ensures r.Failure? ==>
      r.error == if o.fileOpens then CompileFailed(info.shaderPath, None) else CannotOpen(info.shaderPath)
  {
    var shader := new Shader();
    var outcome := shader.Load(info.shaderPath, info.shaderType, o);
    if outcome.Thrown? {
      return Failure(outcome.error);
    }
    return Success(shader);
  }

  /** ShaderManager::destroy: deleting a shader runs its destructor, which deletes the GL object; deleting null does nothing. */
  method Destroy(shader: Shader?)
    requires shader != null ==> shader.Valid()
    modifies if shader != null then {shader} else {}
    ensures shader != null ==> shader.Valid() && shader.State() == Deleted(old(shader.State()))
  {
    // Deleting a null pointer does nothing.
    if shader != null {
      shader.DeleteShader();
    }
  }
}
