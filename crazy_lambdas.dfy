/** Higher-order helpers of the lambda exercises: each returns a function
    value (a Java functional interface) built from its arguments. A Java
    BiFunction that is returned and then applied is modelled as a Dafny
    function taking both arguments. */
module CrazyLambdas {
  import opened JavaInt
  import opened JavaString

  /** String::isEmpty as a Predicate<String>. */
  function IsEmptyPredicate(): (isEmpty: string -> bool)
    ensures forall s :: isEmpty(s) <==> |s| == 0
  {
    s => s == []
  }

  // ---------------------------------------------------------------------------
  // stringMultiplier

  /** n copies of s, one after another. */
  function Repeat(s: string, n: nat): (r: string)
    ensures |r| == n * |s|
  {
    if n == 0 then [] else Repeat(s, n - 1) + s
  }

  /** stringMultiplier: appends the input to an initially empty result once
      per iteration of `for (int i = 0; i < numberOfTimes; i++)`, so a count
      of zero or less gives the empty string. */
  method StringMultiplier(s: string, numberOfTimes: int32) returns (r: string)
    ensures numberOfTimes <= 0 ==> r == []
    ensures numberOfTimes >= 0 ==> r == Repeat(s, numberOfTimes)
  {
    r := [];
    var i: int32 := 0;
    while i < numberOfTimes
      invariant 0 <= i <= (if numberOfTimes < 0 then 0 else numberOfTimes)
      invariant r == Repeat(s, i)
      decreases numberOfTimes - i
    {
      r := r + s;
      assert IsInt(numberOfTimes);
      i := i + 1;
    }
  }

  /** The repetition splits into blocks of |s| characters, each equal to s. */
  lemma {:induction false} RepeatBlocks(s: string, n: nat, j: nat)
    requires j < n
    ensures j * |s| + |s| <= |Repeat(s, n)|
    ensures Repeat(s, n)[j * |s| .. j * |s| + |s|] == s
  {
    var prev := Repeat(s, n - 1);
    assert |prev| == (n - 1) * |s|;
    if j < n - 1 {
      RepeatBlocks(s, n - 1, j);
      assert (prev + s)[j * |s| .. j * |s| + |s|] == prev[j * |s| .. j * |s| + |s|];
    } else {
      assert j * |s| == |prev|;
      assert (prev + s)[|prev| ..] == s;
    }
  }

  /** Repeating a and then b more times is repeating a + b times. */
  lemma {:induction false} RepeatAdd(s: string, a: nat, b: nat)
    ensures Repeat(s, a + b) == Repeat(s, a) + Repeat(s, b)
  {
    if b > 0 {
      RepeatAdd(s, a, b - 1);
      assert Repeat(s, a + b) == Repeat(s, a + b - 1) + s;
    }
  }

  // ---------------------------------------------------------------------------
  // lengthInRangePredicate

  /** Predicate.and: true where both predicates are, testing the first one first. */
  function And(p: string -> bool, q: string -> bool): (both: string -> bool)
    ensures forall s :: both(s) <==> p(s) && q(s)
  {
    s => p(s) && q(s)
  }

  /** lengthInRangePredicate(min, max): the length is at least min and below max. */
  function LengthInRangePredicate(min: int32, max: int32): (inRange: string -> bool)
    ensures forall s :: inRange(s) <==> min <= |s| < max
  {
    And(s => |s| >= min, s => |s| < max)
  }

  /** A string is empty exactly when its length lies in the range [0, 1). */
  lemma {:induction false} IsEmptyIsRangeZeroOne(s: string)
    ensures IsEmptyPredicate()(s) == LengthInRangePredicate(0, 1)(s)
  {
  }

  /** An empty or reversed range admits no string. */
  lemma {:induction false} LengthInRangeEmpty(min: int32, max: int32, s: string)
    requires max <= min
    ensures !LengthInRangePredicate(min, max)(s)
  {
  }

  // ---------------------------------------------------------------------------
  // nMultiplyFunctionSupplier

  /** nMultiplyFunctionSupplier(n): supplies x -> x * n, multiplied in `int`. */
  function NMultiplyFunctionSupplier(n: int32): (supplier: () -> (int32 -> int32))
    ensures forall x: int32 :: supplier()(x) == WrapInt(x * n)
  {
    () => (x: int32) => WrapInt(x * n)
  }

  /** Multiplying by b and then by a is multiplying by a * b, all in `int`. */
  lemma {:induction false} MultiplyCompose(a: int32, b: int32, x: int32)
    ensures NMultiplyFunctionSupplier(a)()(NMultiplyFunctionSupplier(b)()(x))
         == NMultiplyFunctionSupplier(WrapInt(a * b))()(x)
  {
    WrapIntMul(x * b, a);
    WrapIntMul(a * b, x);
    assert x * b * a == (a * b) * x;
  }

  /** The product wraps: 65536 times 65536 is 2^32, which an `int` holds as 0. */
  lemma MultiplyWraps()
    ensures NMultiplyFunctionSupplier(65536)()(65536) == 0
  {
    assert 65536 * 65536 - 0 == 2 * INT_HALF;
  }

  // ---------------------------------------------------------------------------
  // composeWithTrimFunction

  /** composeWithTrimFunction: f.compose(String::trim), which trims the input
      and then applies f. */
  function ComposeWithTrimFunction(): (withTrim: (string -> string) -> (string -> string))
    ensures forall f, s :: withTrim(f)(s) == f(Trim(s))
  {
    (f: string -> string) => (s: string) => f(Trim(s))
  }

  /** The composed function does not see leading or trailing blanks, and
      composing twice trims no further. */
  lemma {:induction false} ComposeWithTrimIgnoresBlanks(f: string -> string, s: string)
    ensures ComposeWithTrimFunction()(f)(Trim(s)) == ComposeWithTrimFunction()(f)(s)
    ensures ComposeWithTrimFunction()(ComposeWithTrimFunction()(f))(s) == ComposeWithTrimFunction()(f)(s)
  {
    TrimIdempotent(s);
  }

  // ---------------------------------------------------------------------------
  // functionToConditionalFunction

  /** functionToConditionalFunction()(operator, predicate): applies the
      operator where the predicate holds and leaves the number unchanged
      elsewhere. */
  function FunctionToConditionalFunction(operator: int32 -> int32, condition: int32 -> bool): (g: int32 -> int32)
    ensures forall x :: condition(x) ==> g(x) == operator(x)
    ensures forall x :: !condition(x) ==> g(x) == x
  {
    x => if condition(x) then operator(x) else x
  }

  /** Under a condition that never holds the conditional function is the
      identity; under one that always holds it is the operator. */
  lemma {:induction false} ConditionalExtremes(operator: int32 -> int32, condition: int32 -> bool, x: int32)
    ensures (forall y :: !condition(y)) ==> FunctionToConditionalFunction(operator, condition)(x) == x
    ensures (forall y :: condition(y)) ==> FunctionToConditionalFunction(operator, condition)(x) == operator(x)
  {
  }

  // ---------------------------------------------------------------------------
  // functionLoader

  /** IntUnaryOperator.identity(). */
  function Identity(): (id: int32 -> int32)
    ensures forall x :: id(x) == x
  {
    x => x
  }

  /** functionLoader()(functions, name): the function stored under name, or the
      identity when the map has no such key. */
  function FunctionLoader(functions: map<string, int32 -> int32>, name: string): (f: int32 -> int32)
    ensures name in functions ==> f == functions[name]
    ensures name !in functions ==> forall x :: f(x) == x
  {
    if name in functions then functions[name] else Identity()
  }

  /** A function stored under a name is loaded back by that name, and storing
      it does not change what any other name loads. */
  lemma {:induction false} FunctionLoaderStore(functions: map<string, int32 -> int32>, name: string, f: int32 -> int32,
                            other: string, x: int32)
    ensures FunctionLoader(functions[name := f], name) == f
    ensures other != name ==>
              FunctionLoader(functions[name := f], other)(x) == FunctionLoader(functions, other)(x)
  {
  }
}
