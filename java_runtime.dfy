/**
 * The slice of the Java runtime and of the JSON binding that the employee proxy
 * leans on: nullable references, `int` arithmetic, the loosely typed values a
 * JSON object is read into (`Map<String, Object>`), the casts applied to them,
 * and the `String` operations used for searching and request gating.
 */
module JavaRuntime {

  datatype Option<+T> = None | Some(value: T)

  /** A value or the exception that replaced it; usable with `:-`. */
  datatype Result<+T, +E> = Success(value: T) | Failure(error: E) {
    predicate IsFailure() {
      Failure?
    }

    function PropagateFailure<U>(): Result<U, E>
      requires Failure?
    {
      Failure(error)
    }

    function Extract(): T
      requires Success?
    {
      value
    }
  }

  /** The range of a Java `int`. */
  predicate InIntRange(n: int) {
    -0x8000_0000 <= n < 0x8000_0000
  }

  /** A Java `int`. */
  type Int32 = x: int | InIntRange(x)

  /** A Java `String` reference: `None` stands for `null`. */
  type JString = Option<string>

  /** The unchecked exceptions raised by a failed cast or by unboxing `null`. */
  datatype Unchecked = ClassCastException | NullPointerException

  /**
   * An object as the JSON binding produces it. Integral numbers carry their
   * exact value: the binding stores them as `Integer`, `Long` or `BigInteger`
   * depending on their magnitude.
   */
  datatype Value =
    | Null
    | Str(s: string)
    | Num(n: int)
    | Bool(b: bool)
    | Obj(fields: map<string, Value>)
    | Arr(items: seq<Value>)

  /** `Map.get`: an absent key reads as `null`. */
  function Get(m: map<string, Value>, key: string): (v: Value)
    ensures key in m ==> v == m[key]
    ensures key !in m ==> v == Null
    ensures v != Null ==> key in m && m[key] == v
  {
    if key in m then m[key] else Null
  }

  /** The JSON value a nullable string is written as. */
  function FromJString(s: JString): (v: Value)
    ensures v.Null? || v.Str?
    ensures CastString(v) == Success(s)
  {
    match s
    case None => Null
    case Some(t) => Str(t)
  }

  /** `(String) v`: `null` and strings pass, anything else is refused. */
  function CastString(v: Value): (r: Result<JString, Unchecked>)
    ensures r.Success? <==> v.Null? || v.Str?
    ensures r.Failure? ==> r.error == ClassCastException
  {
    match v
    case Null => Success(None)
    case Str(s) => Success(Some(s))
    case _ => Failure(ClassCastException)
  }

  /**
   * `Number.intValue()` on an integral number: the low 32 bits read as a
   * two's-complement `int` (what `Integer`, `Long` and `BigInteger` all do).
   */
  function IntValue(n: int): (r: Int32)
    ensures (r - n) % 0x1_0000_0000 == 0
    ensures InIntRange(n) ==> r == n
  {
    var low := n % 0x1_0000_0000;
    if low < 0x8000_0000 then low else low - 0x1_0000_0000
  }

  /** `((Number) v).intValue()`: `null` fails on the call, a non-number on the cast. */
  function NumberIntValue(v: Value): (r: Result<Int32, Unchecked>)
    ensures r.Success? <==> v.Num?
    ensures r.Success? ==> r.value == IntValue(v.n)
    ensures v.Null? ==> r == Failure(NullPointerException)
    ensures !v.Num? && !v.Null? ==> r == Failure(ClassCastException)
  {
    match v
    case Num(n) => Success(IntValue(n))
    case Null => Failure(NullPointerException)
    case _ => Failure(ClassCastException)
  }

  /**
   * `(Integer) v` unboxed into an `int`: only numbers the binding stores as
   * `Integer` (those in 32-bit range) pass the cast, and `null` cannot be unboxed.
   */
  function UnboxInteger(v: Value): (r: Result<Int32, Unchecked>)
    ensures r.Success? <==> v.Num? && InIntRange(v.n)
    ensures r.Success? ==> r.value == v.n
    ensures v.Null? ==> r == Failure(NullPointerException)
    ensures !v.Null? && r.Failure? ==> r.error == ClassCastException
  {
    match v
    case Num(n) => if InIntRange(n) then Success(n) else Failure(ClassCastException)
    case Null => Failure(NullPointerException)
    case _ => Failure(ClassCastException)
  }

  /** String concatenation with a possibly-null `String`, which Java renders as "null". */
  function Concat(s: string, t: JString): (r: string)
    ensures |s| <= |r| && r[..|s|] == s
    ensures t.Some? ==> r[|s|..] == t.value
    ensures t.None? ==> r[|s|..] == "null"
  {
    match t
    case None => s + "null"
    case Some(u) => s + u
  }

  /** `String.startsWith`. */
  function StartsWith(s: string, prefix: string): (b: bool)
    ensures b <==> prefix <= s
  {
    |prefix| <= |s| && s[..|prefix|] == prefix
  }

  /** Case folding of one character, restricted to the ASCII letters. */
  function LowerChar(c: char): char {
    if 'A' <= c <= 'Z' then (c as int + 32) as char else c
  }

  /** `String.toLowerCase`, restricted to ASCII case folding. */
  function ToLowerCase(s: string): (r: string)
    ensures |r| == |s|
    ensures forall i :: 0 <= i < |s| ==> r[i] == LowerChar(s[i])
  {
    if s == [] then [] else [LowerChar(s[0])] + ToLowerCase(s[1..])
  }

  /** Lowering twice is lowering once. */
  lemma ToLowerCaseIdempotent(s: string)
    ensures ToLowerCase(ToLowerCase(s)) == ToLowerCase(s)
  {
  }

  /** `String.contains`: `fragment` starts at some position of `s`. */
  function Contains(s: string, fragment: string): (c: bool)
    ensures c ==> |fragment| <= |s|
    decreases |s|
  {
    StartsWith(s, fragment) || (s != [] && Contains(s[1..], fragment))
  }

  /** `fragment` occurs in `s` starting at index `i`. */
  predicate OccursAt(s: string, fragment: string, i: int) {
    0 <= i && i + |fragment| <= |s| && s[i..i + |fragment|] == fragment
  }

  /** `Contains` holds exactly when `fragment` occurs at some index of `s`. */
  lemma {:induction false} ContainsIffOccurs(s: string, fragment: string)
    ensures Contains(s, fragment) <==> exists i :: OccursAt(s, fragment, i)
    decreases |s|
  {
    var n := |fragment|;
    if Contains(s, fragment) {
      if StartsWith(s, fragment) {
        assert OccursAt(s, fragment, 0);
      } else {
        ContainsIffOccurs(s[1..], fragment);
        var i :| OccursAt(s[1..], fragment, i);
        assert s[i + 1..i + 1 + n] == s[1..][i..i + n];
        assert OccursAt(s, fragment, i + 1);
      }
    }
    if exists i :: OccursAt(s, fragment, i) {
      var i :| OccursAt(s, fragment, i);
      if i == 0 {
        assert StartsWith(s, fragment);
      } else {
        assert s[1..][i - 1..i - 1 + n] == s[i..i + n];
        assert OccursAt(s[1..], fragment, i - 1);
        ContainsIffOccurs(s[1..], fragment);
      }
    }
  }

  /** Every string contains the empty string. */
  lemma ContainsEmpty(s: string)
    ensures Contains(s, "")
  {
  }

  /** A string none of whose characters is the fragment's first one does not contain it. */
  lemma {:induction false} ContainsNeedsFirstChar(s: string, fragment: string)
    requires fragment != []
    requires forall i :: 0 <= i < |s| ==> s[i] != fragment[0]
    ensures !Contains(s, fragment)
    decreases |s|
  {
    if |fragment| <= |s| {
      assert s[..|fragment|][0] != fragment[0];
    }
    if s != [] {
      forall i | 0 <= i < |s[1..]|
        ensures s[1..][i] != fragment[0]
      {
        assert s[1..][i] == s[i + 1];
      }
      ContainsNeedsFirstChar(s[1..], fragment);
    }
  }
}
