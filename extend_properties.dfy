/**
 * Helpers the JavaScript framework adds to the built-in objects:
 * `Math.clamp` / `Math.clamp01`, `String.isAlpha` / `String.isDigit`,
 * `Path.getDirectory` and `Validate.type` / `Validate.instance`.
 * JavaScript numbers are modelled as reals (NaN is not modelled here) and
 * strings as sequences of UTF-16 code units.
 */
module ExtendProperties {

  /** `Math.clamp`: min when below it, max when above it, else the value. */
  function Clamp(v: real, lo: real, hi: real): (r: real)
    ensures v < lo ==> r == lo
    ensures lo <= v && v > hi ==> r == hi
    ensures lo <= v <= hi ==> r == v
    ensures lo <= hi ==> lo <= r <= hi
  {
    if v < lo then lo else if v > hi then hi else v
  }

  /** `Math.clamp01`: written out separately in the source, equal to `Clamp(v, 0, 1)`. */
  function Clamp01(v: real): (r: real)
    ensures 0.0 <= r <= 1.0
  {
    if v < 0.0 then 0.0 else if v > 1.0 then 1.0 else v
  }

  lemma Clamp01IsClamp(v: real)
    ensures Clamp01(v) == Clamp(v, 0.0, 1.0)
  {
  }

  // ---------------------------------------------------------------------
  // String comparison.  `pChar >= 'a'` compares strings, so a longer
  // argument is compared code unit by code unit.

  /** JavaScript `a <= b` on strings: lexicographic on code units. */
  predicate LexLe(a: string, b: string)
    decreases |a|
  {
    |a| == 0 || (|b| > 0 && (a[0] < b[0] || (a[0] == b[0] && LexLe(a[1..], b[1..]))))
  }

  /**
   * `String.isAlpha`.  On a single character it is exactly the ASCII letter
   * test; a longer string passes when its first unit is a letter other than
   * 'z' or 'Z'.
   */
  predicate IsAlpha(s: string)
    ensures IsAlpha(s) <==> |s| > 0 && (('a' <= s[0] < 'z') || ('A' <= s[0] < 'Z') || s == "z" || s == "Z")
    ensures |s| == 1 ==> (IsAlpha(s) <==> ('a' <= s[0] <= 'z') || ('A' <= s[0] <= 'Z'))
  {
    LexLeSingleLeft('a', s);
    LexLeSingleLeft('A', s);
    LexLeSingleRight(s, 'z');
    LexLeSingleRight(s, 'Z');
    (LexLe("a", s) && LexLe(s, "z")) || (LexLe("A", s) && LexLe(s, "Z"))
  }

  /** `String.isDigit`.  On a single character it is exactly the test for '0'..'9'. */
  predicate IsDigit(s: string)
    ensures IsDigit(s) <==> |s| > 0 && (('0' <= s[0] < '9') || s == "9")
    ensures |s| == 1 ==> (IsDigit(s) <==> '0' <= s[0] <= '9')
  {
    LexLeSingleLeft('0', s);
    LexLeSingleRight(s, '9');
    LexLe("0", s) && LexLe(s, "9")
  }

  lemma LexLeSingleLeft(c: char, s: string)
    ensures LexLe([c], s) <==> |s| > 0 && c <= s[0]
  {
    assert [c][1..] == [];
  }

  lemma LexLeSingleRight(s: string, c: char)
    ensures LexLe(s, [c]) <==> |s| == 0 || s[0] < c || s == [c]
  {
    if |s| > 0 && s[0] == c {
      assert [c][1..] == [];
      if |s| > 1 {
        assert !LexLe(s[1..], []);
      } else {
        assert s == [c];
      }
    }
  }

  // ---------------------------------------------------------------------
  // Path.getDirectory

  /** `lastIndexOf` of a single code unit: the last index holding it, or -1. */
  function LastIndexOf(s: string, c: char): (r: int)
    ensures -1 <= r < |s|
    ensures r >= 0 ==> s[r] == c
    ensures forall k :: r < k < |s| ==> s[k] != c
  {
    if |s| == 0 then -1
    else if s[|s| - 1] == c then |s| - 1
    else LastIndexOf(s[..|s| - 1], c)
  }

  predicate IsSeparator(c: char) { c == '\\' || c == '/' }

  /** The position after the last separator; `"\/"` in the source is just "/". */
  function AfterLastSeparator(s: string): (r: nat)
    ensures r <= |s|
    ensures r > 0 ==> IsSeparator(s[r - 1])
    ensures forall k :: r <= k < |s| ==> !IsSeparator(s[k])
  {
    var a := LastIndexOf(s, '\\');
    var b := LastIndexOf(s, '/');
    (if a < b then b else a) + 1
  }

  /**
   * `Path.getDirectory`.  With a '.', the result is the prefix of the path
   * through its last separator (empty when there is none), so the file name
   * is dropped.  Without a '.', the path itself is kept and a '/' is added
   * unless it already ends with a separator (or is empty).
   */
  function GetDirectory(path: string): (d: string)
    ensures '.' in path ==>
      d <= path && (|d| == 0 || IsSeparator(d[|d| - 1]))
      && forall k :: |d| <= k < |path| ==> !IsSeparator(path[k])
    ensures '.' !in path ==>
      path <= d && |d| <= |path| + 1 && (|d| == 0 || IsSeparator(d[|d| - 1]))
      && (|path| > 0 && IsSeparator(path[|path| - 1]) ==> d == path)
  {
    if LastIndexOf(path, '.') == -1 then
      if AfterLastSeparator(path) < |path| then path + "/" else path
    else
      path[..AfterLastSeparator(path)]
  }

  /** Applying `getDirectory` to its own result changes nothing. */
  lemma GetDirectoryIdempotent(path: string)
    ensures GetDirectory(GetDirectory(path)) == GetDirectory(path)
  {
    var d := GetDirectory(path);
    if '.' in d {
      assert AfterLastSeparator(d) == |d|;
    } else {
      assert LastIndexOf(d, '.') == -1;
      assert AfterLastSeparator(d) == |d|;
    }
  }

  // ---------------------------------------------------------------------
  // Validate

  /**
   * The JavaScript values `Validate` is given.  An object carries the names
   * of the constructors on its prototype chain; a function value carries its
   * own name and the chain an instance created by `new` would have.
   */
  datatype JsValue =
    | Undefined
    | Null
    | Boolean(b: bool)
    | Number(n: real)
    | Str(s: string)
    | Object(chain: seq<string>)
    | Function(name: string, instanceChain: seq<string>)

  /** The outcome of a call: a returned value or a thrown `Error`. */
  datatype Outcome = Returns(value: JsValue) | Throws

  /** `typeof`. */
  function TypeOf(v: JsValue): string
  {
    match v
    case Undefined => "undefined"
    case Null => "object"
    case Boolean(_) => "boolean"
    case Number(_) => "number"
    case Str(_) => "string"
    case Object(_) => "object"
    case Function(_, _) => "function"
  }

  /** `v instanceof f` for a function value f. */
  predicate InstanceOf(v: JsValue, f: JsValue)
    requires f.Function?
  {
    v.Object? && f.name in v.chain
  }

  /** A strict flag that is not a boolean counts as false. */
  function StrictFlag(strict: JsValue): bool
  {
    strict.Boolean? && strict.b
  }

  /**
   * `Validate.type(pVal, pType, pDefault, pStrict)`: throws exactly when the
   * type name is not a string or a strict check fails; a value it returns is
   * the checked value when its `typeof` matches, and the default otherwise.
   */
  function ValidateType(v: JsValue, ty: JsValue, default: JsValue, strict: JsValue): (r: Outcome)
    ensures r.Throws? <==> !ty.Str? || (TypeOf(v) != ty.s && StrictFlag(strict))
    ensures ty.Str? && TypeOf(v) == ty.s ==> r == Returns(v)
    ensures ty.Str? && TypeOf(v) != ty.s && !StrictFlag(strict) ==> r == Returns(default)
  {
    if !ty.Str? then Throws
    else if TypeOf(v) != ty.s then
      if StrictFlag(strict) then Throws else Returns(default)
    else Returns(v)
  }

  /**
   * `Validate.instance(pVal, pType, pDefault, pStrict)`: throws when the
   * type is not a function.  Otherwise it returns the value when it is an
   * instance; a strict mismatch throws; a non-strict mismatch yields the
   * default, or a fresh instance of the type when no default is given, and
   * that fresh value is itself an instance whenever the type's own name is
   * on the chain its instances get.
   */
  function ValidateInstance(v: JsValue, ty: JsValue, default: JsValue, strict: JsValue): (r: Outcome)
    ensures !ty.Function? ==> r.Throws?
    ensures ty.Function? && InstanceOf(v, ty) ==> r == Returns(v)
    ensures ty.Function? && !InstanceOf(v, ty) && StrictFlag(strict) ==> r.Throws?
    ensures ty.Function? && !InstanceOf(v, ty) && !StrictFlag(strict) && default != Undefined ==> r == Returns(default)
    ensures ty.Function? && ty.name in ty.instanceChain && !InstanceOf(v, ty) && !StrictFlag(strict) && default == Undefined
      ==> r.Returns? && InstanceOf(r.value, ty)
  {
    if !ty.Function? then Throws
    else if !InstanceOf(v, ty) then
      if StrictFlag(strict) then Throws
      else if default != Undefined then Returns(default)
      else Returns(Object(ty.instanceChain))
    else Returns(v)
  }
}
