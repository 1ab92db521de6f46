/** The operation engine (`apply_operation`): combines the decoded values of a mapping's
    source columns into one output string. */
module Operations {
  import opened Text
  import opened Cells

  predicate IsArithmetic(operation: string)
  {
    operation == "add" || operation == "subtract" || operation == "multiply" || operation == "divide"
  }

  /** The values that read as numbers, in order; the others are dropped. */
  function Numbers(values: seq<string>): (nums: seq<real>)
    ensures |nums| <= |values|
    ensures nums == [] <==> forall i :: 0 <= i < |values| ==> ParseFloat(values[i]).None?
  {
    if values == [] then []
    else
      var rest := Numbers(values[1..]);
      assert forall i :: 1 <= i < |values| ==> values[i] == values[1..][i - 1];
      match ParseFloat(values[0])
      case Some(x) => [x] + rest
      case None => rest
  }

  function Sum(xs: seq<real>): real
  {
    if xs == [] then 0.0 else xs[0] + Sum(xs[1..])
  }

  function Product(xs: seq<real>): (r: real)
    ensures (forall i :: 0 <= i < |xs| ==> xs[i] != 0.0) ==> r != 0.0
  {
    if xs == [] then 1.0 else xs[0] * Product(xs[1..])
  }

  /** The `subtract` fold: `acc - x` for each later number, left to right. */
  function SubtractEach(acc: real, xs: seq<real>): real
    decreases xs
  {
    if xs == [] then acc else SubtractEach(acc - xs[0], xs[1..])
  }

  /** The `divide` fold: `acc / x` for each later number, skipping the divisors equal to 0. */
  function DivideEach(acc: real, xs: seq<real>): real
    decreases xs
  {
    if xs == [] then acc else DivideEach(if xs[0] != 0.0 then acc / xs[0] else acc, xs[1..])
  }

  /** The numbers of `xs` other than 0. */
  function NonZero(xs: seq<real>): (r: seq<real>)
    ensures forall i :: 0 <= i < |r| ==> r[i] != 0.0
  {
    if xs == [] then []
    else if xs[0] != 0.0 then [xs[0]] + NonZero(xs[1..])
    else NonZero(xs[1..])
  }

  /** The arithmetic result over the parsed numbers. The last case is the inner match's
      fallback, which an arithmetic operator never reaches. */
  function Combine(operation: string, nums: seq<real>): real
    requires nums != []
  {
    if operation == "add" then Sum(nums)
    else if operation == "subtract" then SubtractEach(nums[0], nums[1..])
    else if operation == "multiply" then Product(nums)
    else if operation == "divide" then DivideEach(nums[0], nums[1..])
    else 0.0
  }

  /** `apply_operation`. No values give "" whatever the operator; "concat" and every name
      that is not an arithmetic operator join the values in order with no separator; an
      arithmetic operator with no value that reads as a number gives "". */
  function ApplyOperation(values: seq<string>, operation: string, fmt: FloatFormat): (r: string)
    ensures values == [] ==> r == ""
    ensures !IsArithmetic(operation) ==> r == Join(values, "")
    ensures IsArithmetic(operation) && (forall i :: 0 <= i < |values| ==> ParseFloat(values[i]).None?)
            ==> r == ""
  {
    if values == [] then ""
    else if operation == "concat" then Join(values, "")
    else if IsArithmetic(operation) then
      var nums := Numbers(values);
      if nums == [] then "" else RenderNumber(Combine(operation, nums), fmt)
    else Join(values, "")
  }

  /** "concat" and unknown operators concatenate the values in order. */
  lemma ConcatenatesInOrder(values: seq<string>, operation: string, fmt: FloatFormat)
    requires !IsArithmetic(operation)
    ensures ApplyOperation(values, operation, fmt) == Concat(values)
  {
    JoinWithoutSeparator(values);
  }

  /** "subtract" is the first number minus the sum of all later ones. */
  lemma {:induction false} SubtractIsFirstMinusRest(acc: real, xs: seq<real>)
    ensures SubtractEach(acc, xs) == acc - Sum(xs)
    decreases xs
  {
    if xs != [] {
      SubtractIsFirstMinusRest(acc - xs[0], xs[1..]);
    }
  }

  /** "divide" is the first number divided by the product of the later non-zero ones: a zero
      divisor leaves the running value as it is. */
  lemma {:induction false} DivideSkipsZeros(acc: real, xs: seq<real>)
    ensures Product(NonZero(xs)) != 0.0
    ensures DivideEach(acc, xs) == acc / Product(NonZero(xs))
    decreases xs
  {
    if xs != [] {
      var rest := xs[1..];
      if xs[0] != 0.0 {
        DivideSkipsZeros(acc / xs[0], rest);
        var p := Product(NonZero(rest));
        assert NonZero(xs) == [xs[0]] + NonZero(rest);
        assert Product(NonZero(xs)) == xs[0] * p;
        DivideTwice(acc, xs[0], p);
      } else {
        DivideSkipsZeros(acc, rest);
      }
    }
  }

  lemma DivideTwice(a: real, b: real, c: real)
    requires b != 0.0 && c != 0.0
    ensures (a / b) / c == a / (b * c)
  {
    var q := a / b;
    var r := q / c;
    assert q * b == a;
    assert r * c == q;
    assert r * (b * c) == (r * c) * b;
  }

  /** When exactly one value reads as a number, every arithmetic operator gives that number. */
  lemma SingleNumberPassesThrough(values: seq<string>, operation: string, x: real, fmt: FloatFormat)
    requires IsArithmetic(operation) && Numbers(values) == [x]
    ensures ApplyOperation(values, operation, fmt) == RenderNumber(x, fmt)
  {
    assert values != [];
    if operation == "add" {
      assert Sum([x]) == x + Sum([]);
    } else if operation == "multiply" {
      assert Product([x]) == x * Product([]);
    } else {
      assert [x][1..] == [];
    }
    assert Combine(operation, [x]) == x;
  }

  /** A single integer value comes out unchanged whatever the operator. */
  lemma IntegerPassesThrough(i: int, operation: string, fmt: FloatFormat)
    ensures ApplyOperation([IntToString(i)], operation, fmt) == IntToString(i)
  {
    var values := [IntToString(i)];
    if IsArithmetic(operation) {
      IntToStringReadsBack(i);
      assert Numbers(values[1..]) == [];
      assert Numbers(values) == [i as real];
      SingleNumberPassesThrough(values, operation, i as real, fmt);
    }
  }

  /** The numbers read from the values of the "add" example: "n/a" is dropped. */
  lemma AddExampleNumbers()
    ensures Numbers(["12", "n/a", "30"]) == [12.0, 30.0]
  {
    NotANumber("n/a");
    IntToStringReadsBack(12);
    assert IntToString(12) == "12";
    IntToStringReadsBack(30);
    assert IntToString(30) == "30";
    assert ["12", "n/a", "30"][1..] == ["n/a", "30"];
    assert ["n/a", "30"][1..] == ["30"];
  }

  /** An arithmetic operator over values of which at least one reads as a number: "add"
      renders the sum, "subtract" the first number minus the sum of the rest, "multiply" the
      product, and "divide" the first number over the product of the later non-zero ones. */
  lemma ArithmeticResult(values: seq<string>, operation: string, fmt: FloatFormat)
    requires IsArithmetic(operation) && Numbers(values) != []
    ensures var nums := Numbers(values); var r := ApplyOperation(values, operation, fmt);
      && (operation == "add" ==> r == RenderNumber(Sum(nums), fmt))
      && (operation == "subtract" ==> r == RenderNumber(nums[0] - Sum(nums[1..]), fmt))
      && (operation == "multiply" ==> r == RenderNumber(Product(nums), fmt))
      && (operation == "divide" ==> r == RenderNumber(nums[0] / Product(NonZero(nums[1..])), fmt))
  {
    RendersCombined(values, operation, fmt);
    CombineClosedForms(operation, Numbers(values));
  }

  lemma CombineClosedForms(operation: string, nums: seq<real>)
    requires nums != []
    ensures operation == "add" ==> Combine(operation, nums) == Sum(nums)
    ensures operation == "subtract" ==> Combine(operation, nums) == nums[0] - Sum(nums[1..])
    ensures operation == "multiply" ==> Combine(operation, nums) == Product(nums)
    ensures operation == "divide" ==> Combine(operation, nums) == nums[0] / Product(NonZero(nums[1..]))
  {
    if operation == "subtract" {
      SubtractIsFirstMinusRest(nums[0], nums[1..]);
    } else if operation == "divide" {
      DivideSkipsZeros(nums[0], nums[1..]);
    }
  }

  lemma RendersCombined(values: seq<string>, operation: string, fmt: FloatFormat)
    requires IsArithmetic(operation) && Numbers(values) != []
    ensures ApplyOperation(values, operation, fmt) == RenderNumber(Combine(operation, Numbers(values)), fmt)
  {
    assert values != [] && operation != "concat";
  }

  /** "add" drops a value that does not read as a number. */
  lemma AddExample(fmt: FloatFormat)
    ensures ApplyOperation(["12", "n/a", "30"], "add", fmt) == "42"
  {
    AddExampleNumbers();
    ArithmeticResult(["12", "n/a", "30"], "add", fmt);
    AddExampleSum(fmt);
  }

  lemma AddExampleSum(fmt: FloatFormat)
    ensures RenderNumber(Sum([12.0, 30.0]), fmt) == "42"
  {
    assert Sum([12.0, 30.0]) == 42.0;
    assert RenderNumber(42.0, fmt) == "42" by {
      assert (42.0).Floor == 42;
    }
  }

  lemma SubtractExampleNumbers()
    ensures Numbers(["10", "4", "1"]) == [10.0, 4.0, 1.0]
  {
    IntToStringReadsBack(10);
    assert IntToString(10) == "10";
    IntToStringReadsBack(4);
    assert IntToString(4) == "4";
    IntToStringReadsBack(1);
    assert IntToString(1) == "1";
    assert ["10", "4", "1"][1..] == ["4", "1"];
    assert ["4", "1"][1..] == ["1"];
  }

  /** "subtract" takes every later number from the first. */
  lemma SubtractExample(fmt: FloatFormat)
    ensures ApplyOperation(["10", "4", "1"], "subtract", fmt) == "5"
  {
    SubtractExampleNumbers();
    ArithmeticResult(["10", "4", "1"], "subtract", fmt);
    assert [10.0, 4.0, 1.0][1..] == [4.0, 1.0];
    assert 10.0 - Sum([4.0, 1.0]) == 5.0;
    assert RenderNumber(5.0, fmt) == "5" by {
      assert (5.0).Floor == 5;
    }
  }

  lemma DivideExampleNumbers()
    ensures Numbers(["8", "0", "2"]) == [8.0, 0.0, 2.0]
  {
    IntToStringReadsBack(8);
    assert IntToString(8) == "8";
    IntToStringReadsBack(0);
    assert IntToString(0) == "0";
    IntToStringReadsBack(2);
    assert IntToString(2) == "2";
    assert ["8", "0", "2"][1..] == ["0", "2"];
    assert ["0", "2"][1..] == ["2"];
  }

  /** "divide" skips a zero divisor. */
  lemma DivideExample(fmt: FloatFormat)
    ensures ApplyOperation(["8", "0", "2"], "divide", fmt) == "4"
  {
    DivideExampleNumbers();
    ArithmeticResult(["8", "0", "2"], "divide", fmt);
    assert [8.0, 0.0, 2.0][1..] == [0.0, 2.0];
    assert NonZero([0.0, 2.0]) == [2.0];
    assert 8.0 / Product([2.0]) == 4.0;
    assert RenderNumber(4.0, fmt) == "4" by {
      assert (4.0).Floor == 4;
    }
  }

  /** An operator name that is not known concatenates, like "concat". */
  lemma UnknownOperatorExample(fmt: FloatFormat)
    ensures ApplyOperation(["Bei", "jing"], "merge", fmt) == "Beijing"
  {
  }
}
