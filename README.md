# Stream pipelines and lambda helpers, modelled in Dafny

This project models two Java exercise files.

The first is `Pack_4_Streams_Difficult`: six stream pipelines over a list of employee records and over plain values.

1. Find the first employee who shares a full name with a different record.
2. Count the groups of at least five employees that share the first two characters of their home post code.
3. Count the distinct addresses, correspondence and home.
4. Total each company's payroll, rank the companies, and format the amounts as pounds.
5. Count the words of a line-separated text and sort the formatted lines.
6. Add up the square values of a chess board with arbitrary row and column numbers.

The second is `CrazyLambdas`: static factories that return Java functional interfaces. They are modelled as Dafny arrow values and one method:
- string repetition;
- an is-empty predicate and a length-range predicate;
- a multiplier supplier;
- composition with `trim`;
- a conditional function;
- a name-to-function loader.

Each pipeline is a function of its inputs. The test fixture `EMPLOYEES` becomes a `staff: seq<Employee>` parameter.

The Java library behaviour the pipelines depend on is modelled explicitly, in its own module:

| Module | What it models |
|---|---|
| `Wrappers` | `Option` and `Result`. `Optional<Address>` is `Option<Address>`. A thrown `StringIndexOutOfBoundsException` is a `Result` failure. |
| `JavaInt` | 32-bit `int` and 64-bit `long` arithmetic, with two's-complement wrap-around (`WrapInt`, `WrapLong`). |
| `JavaString` | `String.split` with a one-character pattern and limit 0 (trailing empty strings dropped), `String.trim`, and `String.compareTo`. |
| `Decimal` | Decimal digits and the pattern `"£#,###.00"` of `DecimalFormat` applied to whole numbers. |
| `Collect` | `Collectors.groupingBy` as a list of groups in first-occurrence order of their keys, `distinct`, and sums. |
| `Sorting` | `Stream.sorted(comparator)` as a stable insertion sort driven by a Java-style comparator. |
| `Records` | `Employee`, `Address` and `Company` as records compared field by field (an assumption; see Left out). |
| `StreamsDifficult` | The six pipelines. |
| `CrazyLambdas` | The lambda factories. |

Decisions that follow the code rather than a prose description of it:
- Exercise 4 keeps every company: the code has no `limit(10)`, although the expected list in the test has ten lines.
- Exercise 4 truncates each salary to an `int` before the `int` summation, and compares totals with an `int` subtraction `b - a`.
- Exercise 5 sorts the whole formatted line `"token - count"` with `compareTo`, not the token alone. The two orders agree on the sample text. They can differ only when one token is a proper prefix of the other. The order then depends on how the rest of the longer token compares with `" - "` and the count. For example, `"a"` sorts before `"a\tb"`, yet the line `"a\tb - 1"` sorts before `"a - 1"`, because a tab is below a space (`StreamsDifficult.LineOrderDiffers`).
- The iteration order of a `HashMap` is unspecified. The model takes first-occurrence order of the keys. In exercise 5 the order does not matter, since whole lines are sorted. In exercise 4 it matters for companies with equal totals. It can matter more once `b - a` wraps (a negative salary, or totals far apart near the `int` limits). The comparator is then inconsistent (`StreamsDifficult.ByTotalDescendingWraps`), so the order depends on the sorting algorithm and on the input order. Java's TimSort may then also throw `IllegalArgumentException` for 32 or more companies.
- Exercise 6 multiplies each row number by the column sum in `int` arithmetic, then widens the product to `long` and adds in `long`. The column sum is itself a wrapping `int` reduction.

## Model

| member | source | states |
|---|---|---|
| `StreamsDifficult.AnyNamesake` | Homework_part2/src/main/java/com/homework/exercises/Pack_4_Streams_Difficult.java:34-39 | True exactly when some record of the staff differs from the employee and has the same first name and surname. |
| `StreamsDifficult.FirstWithNamesake` | Homework_part2/src/main/java/com/homework/exercises/Pack_4_Streams_Difficult.java:32-41 | `filter(...).findFirst()`: empty exactly when no candidate has a namesake; otherwise the earliest candidate that has one, with none before it. |
| `StreamsDifficult.DuplicateName` | Homework_part2/src/main/java/com/homework/exercises/Pack_4_Streams_Difficult.java:32-41 | Exercise 1: `None` (Java `null`) exactly when nobody has a namesake; otherwise "first surname" of the first employee in list order who has one. |
| `StreamsDifficult.CopiesAreNotNamesakes` | Homework_part2/src/main/java/com/homework/exercises/Pack_4_Streams_Difficult.java:36 | Equal records are never namesakes of each other, so a staff of identical copies yields no name. |
| `StreamsDifficult.TwoNamesakesFound` | Homework_part2/src/main/java/com/homework/exercises/Pack_4_Streams_Difficult.java:32-41 | Two different records with one full name: the name of the earlier one is returned. |
| `StreamsDifficult.FirstShortPostCode` | Homework_part2/src/main/java/com/homework/exercises/Pack_4_Streams_Difficult.java:55 | The position of the first employee whose home post code is shorter than two characters, or the staff size when there is none. |
| `StreamsDifficult.LargeGroups` | Homework_part2/src/main/java/com/homework/exercises/Pack_4_Streams_Difficult.java:58 | `filter(employees.size() >= 5)`: every kept group is one of the input's and has at least five members, and every input group of at least five is kept. The result equals the independently defined order-keeping `Collect.Select` with that condition, so the kept groups stay in their original order. |
| `StreamsDifficult.LargeGroupsCount` | Homework_part2/src/main/java/com/homework/exercises/Pack_4_Streams_Difficult.java:56-59 | With distinct group keys, the count of large groups equals the number of keys whose group has at least five members. |
| `StreamsDifficult.CloseGroupCount` | Homework_part2/src/main/java/com/homework/exercises/Pack_4_Streams_Difficult.java:54-59 | Exercise 2: fails exactly when some post code is too short for `substring(0,2)`, and then reports `StringIndexOutOfBounds(0, 2, length)` for the first such employee. Otherwise it yields the number of distinct two-character prefixes held by at least five employees. |
| `StreamsDifficult.LargeGroupsArePrefixes` | Homework_part2/src/main/java/com/homework/exercises/Pack_4_Streams_Difficult.java:55-59 | Counting large groups of the grouping equals counting the prefixes that at least five employees share. |
| `StreamsDifficult.CloseGroupCountBound` | Homework_part2/src/main/java/com/homework/exercises/Pack_4_Streams_Difficult.java:54-59 | When every post code has two characters, the count succeeds and five times the count is at most the staff size. |
| `StreamsDifficult.AddressSlots` | Homework_part2/src/main/java/com/homework/exercises/Pack_4_Streams_Difficult.java:71 | `flatMap`: two slots per employee, in order: the correspondence `Optional`, then `Optional.of(home)`. |
| `StreamsDifficult.DistinctAddressCount` | Homework_part2/src/main/java/com/homework/exercises/Pack_4_Streams_Difficult.java:70-73 | Exercise 3: the number of distinct values among all correspondence optionals and wrapped home addresses. |
| `StreamsDifficult.SlotValues` | Homework_part2/src/main/java/com/homework/exercises/Pack_4_Streams_Difficult.java:71-72 | The values of the flattened stream are exactly the correspondence values together with the wrapped home addresses. |
| `StreamsDifficult.EmptyCountedIffMissing` | Homework_part2/src/main/java/com/homework/exercises/Pack_4_Streams_Difficult.java:71-73 | `Optional.empty()` is one of the counted values exactly when some employee has no correspondence address. |
| `StreamsDifficult.DistinctAddressBounds` | Homework_part2/src/main/java/com/homework/exercises/Pack_4_Streams_Difficult.java:70-73 | The count lies between the number of distinct home addresses and twice the staff size. |
| `StreamsDifficult.HomeValuesCard` | Homework_part2/src/main/java/com/homework/exercises/Pack_4_Streams_Difficult.java:71 | Wrapping with `Optional.of` neither merges nor splits home addresses. |
| `StreamsDifficult.IntValue` | Homework_part2/src/main/java/com/homework/exercises/Pack_4_Streams_Difficult.java:88 | `BigDecimal.intValue`: the integer part when it fits in an `int`, and in every case congruent to it modulo 2^32. |
| `StreamsDifficult.TruncateTowardZero` | Homework_part2/src/main/java/com/homework/exercises/Pack_4_Streams_Difficult.java:88 | The integer part of a salary, rounding toward zero for either sign (the first step of `BigDecimal.intValue`). |
| `StreamsDifficult.SummingInt` | Homework_part2/src/main/java/com/homework/exercises/Pack_4_Streams_Difficult.java:88 | `summingInt(salary.intValue())`: the per-employee truncated salaries added with 32-bit wrap-around, equal to the exact sum reduced to an `int`. |
| `StreamsDifficult.CompanyTotals` | Homework_part2/src/main/java/com/homework/exercises/Pack_4_Streams_Difficult.java:88-89 | One entry per group of the grouping by company name, holding that group's `summingInt` total. |
| `StreamsDifficult.ByTotalDescending` | Homework_part2/src/main/java/com/homework/exercises/Pack_4_Streams_Difficult.java:91 | The comparator `b - a` in `int` arithmetic: the `int` congruent to the difference modulo 2^32. When the difference fits, it is negative exactly when a's total is larger, and zero exactly when the totals are equal. |
| `StreamsDifficult.ByTotalDescendingWraps` | Homework_part2/src/main/java/com/homework/exercises/Pack_4_Streams_Difficult.java:91 | For the totals -2^31 and 0, the wrapped comparator puts each before the other, so it is not a consistent comparator. |
| `StreamsDifficult.RankedTotals` | Homework_part2/src/main/java/com/homework/exercises/Pack_4_Streams_Difficult.java:87-91 | `sorted(...)` over the company totals: a permutation of them. |
| `StreamsDifficult.PayrollLine` | Homework_part2/src/main/java/com/homework/exercises/Pack_4_Streams_Difficult.java:92 | `getKey() + " - " + format(getValue())`: the company name, then " - ", then the amount laid out as `Decimal.FormatPounds` lays it out, which parses back to the total. |
| `StreamsDifficult.PayrollReport` | Homework_part2/src/main/java/com/homework/exercises/Pack_4_Streams_Difficult.java:84-93 | Exercise 4: exactly one line per distinct company name, with no limit. Line i is "name - " followed by the pound form of the i-th ranked total. |
| `StreamsDifficult.RankedTotalsContent` | Homework_part2/src/main/java/com/homework/exercises/Pack_4_Streams_Difficult.java:87-91 | Every ranked entry names a company of the staff, and its total is that company's truncated salaries summed in `int`. Every company appears, and no company appears twice. |
| `StreamsDifficult.PayrollRanked` | Homework_part2/src/main/java/com/homework/exercises/Pack_4_Streams_Difficult.java:91 | When no salary is negative and no company's payroll overflows an `int`, the comparator `b - a` ranks the totals in non-increasing order. |
| `StreamsDifficult.PayrollGrandTotal` | Homework_part2/src/main/java/com/homework/exercises/Pack_4_Streams_Difficult.java:88 | Under the same condition, the company totals add up to the sum of all employees' truncated salaries. |
| `StreamsDifficult.PayrollArithmetic` | Homework_part2/src/main/java/com/homework/exercises/Pack_4_Streams_Difficult.java:88 | Truncation happens per employee (two salaries of 0.5 total 0), and negative salaries truncate toward zero. A payroll past 2^31 - 1 wraps to a negative `int`. |
| `Decimal.FormatPounds` | Homework_part2/src/main/java/com/homework/exercises/Pack_4_Streams_Difficult.java:84-92 | `DecimalFormat("£#,###.00").format(v)`: a minus sign exactly when v is negative, then the pound sign, then the magnitude, then ".00". The magnitude part is empty exactly for zero; otherwise it has one to three leading digits (not starting with 0), then comma-separated groups of three, and it denotes the magnitude. Reading the output back yields v. |
| `Decimal.Grouped` | Homework_part2/src/main/java/com/homework/exercises/Pack_4_Streams_Difficult.java:84 | The "#,###" integer part: empty exactly for zero. Otherwise one to three leading digits (not starting with 0) then comma-separated groups of three, whose digits, commas removed, spell the number. |
| `Decimal.NatToString` | Homework_part2/src/main/java/com/homework/exercises/Pack_4_Streams_Difficult.java:124 | The decimal form of a count (`Long.toString`): digits only, no leading zero unless zero, and it spells the number. |
| `Decimal.FormatPoundsExample` | Homework_part2/src/main/java/com/homework/exercises/Pack_4_Streams_Difficult.java:96 | 12119153 is formatted as "£12,119,153.00". |
| `Collect.Select` | Homework_part2/src/main/java/com/homework/exercises/Pack_4_Streams_Difficult.java:55 | The elements with a given key: every kept element has the key, and every element with the key is kept. Order and multiplicity are stated in `Collect.SelectInOrder` and `Collect.SelectMultiplicity`. |
| `Collect.SelectInOrder` | Homework_part2/src/main/java/com/homework/exercises/Pack_4_Streams_Difficult.java:55 | The selected elements are a subsequence of the input: they sit at strictly increasing positions, so encounter order is kept. |
| `Collect.SelectMultiplicity` | Homework_part2/src/main/java/com/homework/exercises/Pack_4_Streams_Difficult.java:55 | Each element with the key is selected as many times as it occurs in the input, and elements with another key are not selected. |
| `Collect.GroupingBy` | Homework_part2/src/main/java/com/homework/exercises/Pack_4_Streams_Difficult.java:55 | `groupingBy` (also used at lines 88 and 121): no key appears twice. Each group is non-empty and holds exactly the elements with its key, in order. The keys are exactly the keys of the elements. |
| `Collect.GroupingBySum` | Homework_part2/src/main/java/com/homework/exercises/Pack_4_Streams_Difficult.java:88 | Grouping loses and duplicates nothing: summing per group and then over the groups gives the sum over all elements. |
| `Collect.GroupCount` | Homework_part2/src/main/java/com/homework/exercises/Pack_4_Streams_Difficult.java:55-56 | There are as many groups as distinct keys. |
| `Collect.Distinct` | Homework_part2/src/main/java/com/homework/exercises/Pack_4_Streams_Difficult.java:72 | `distinct()`: no duplicates, and an element is kept exactly when it occurs in the input. |
| `Collect.DistinctCount` | Homework_part2/src/main/java/com/homework/exercises/Pack_4_Streams_Difficult.java:72-73 | `distinct().count()` is the number of distinct values. |
| `Sorting.Sort` | Homework_part2/src/main/java/com/homework/exercises/Pack_4_Streams_Difficult.java:91 | `sorted(comparator)` (also used at line 125): a permutation of the input. |
| `Sorting.SortSorted` | Homework_part2/src/main/java/com/homework/exercises/Pack_4_Streams_Difficult.java:125 | Here and at line 91: for a comparator that is consistent and transitive on the elements, the result is ordered by it. |
| `JavaString.Split` | Homework_part2/src/main/java/com/homework/exercises/Pack_4_Streams_Difficult.java:120 | `split("\n")`: the string itself when there is no line break. Otherwise the pieces between line breaks up to the last non-empty one, with only empty pieces dropped. No piece contains a line break. |
| `JavaString.SplitAll` | Homework_part2/src/main/java/com/homework/exercises/Pack_4_Streams_Difficult.java:120 | The pieces between separators, one more than there are separators, none holding the separator; joining them back gives the string. |
| `JavaString.SplitJoin` | Homework_part2/src/main/java/com/homework/exercises/Pack_4_Streams_Difficult.java:120 | Splitting a join of separator-free pieces gives the pieces back. |
| `JavaString.SplitOfJoin` | Homework_part2/src/main/java/com/homework/exercises/Pack_4_Streams_Difficult.java:120 | `split` undoes a join of two or more separator-free pieces whose last piece is non-empty. |
| `JavaString.CompareTo` | Homework_part2/src/main/java/com/homework/exercises/Pack_4_Streams_Difficult.java:125 | `String.compareTo`: zero exactly for equal strings, negative exactly when the first is lexicographically smaller by character code. |
| `JavaString.CompareToAntisymmetric` | Homework_part2/src/main/java/com/homework/exercises/Pack_4_Streams_Difficult.java:125 | Swapping the arguments negates the result. |
| `JavaString.CompareToTransitive` | Homework_part2/src/main/java/com/homework/exercises/Pack_4_Streams_Difficult.java:125 | "At most" under `compareTo` is transitive. |
| `StreamsDifficult.FrequencyLines` | Homework_part2/src/main/java/com/homework/exercises/Pack_4_Streams_Difficult.java:124 | One line "token - count" per group, in group order. |
| `StreamsDifficult.SelectWordCount` | Homework_part2/src/main/java/com/homework/exercises/Pack_4_Streams_Difficult.java:121 | `counting()` of a token's group is the number of times the token occurs. |
| `StreamsDifficult.WordFrequencies` | Homework_part2/src/main/java/com/homework/exercises/Pack_4_Streams_Difficult.java:120-126 | Exercise 5: one line per distinct token of the split text. Every line is "w - n" for a token w that occurs exactly n times, every token has its line, and each line is equal to or lexicographically before every later one. |
| `StreamsDifficult.CountedLinesSorted` | Homework_part2/src/main/java/com/homework/exercises/Pack_4_Streams_Difficult.java:121-125 | Grouping, counting, formatting and sorting a token list gives lines in non-decreasing `compareTo` order. |
| `StreamsDifficult.CountedLinesCount` | Homework_part2/src/main/java/com/homework/exercises/Pack_4_Streams_Difficult.java:121-126 | There is one line per distinct token of the list. |
| `StreamsDifficult.CountedLinesSound` | Homework_part2/src/main/java/com/homework/exercises/Pack_4_Streams_Difficult.java:121-126 | Every line is "w - n" for a token w of the list that occurs exactly n times. |
| `StreamsDifficult.CountedLinesComplete` | Homework_part2/src/main/java/com/homework/exercises/Pack_4_Streams_Difficult.java:121-126 | Every token of the list has its "w - n" line. |
| `StreamsDifficult.CountsSumToTokens` | Homework_part2/src/main/java/com/homework/exercises/Pack_4_Streams_Difficult.java:120-121 | The `counting()` values of the groups add up to the number of tokens that `split` returns. |
| `StreamsDifficult.LineOrderDiffers` | Homework_part2/src/main/java/com/homework/exercises/Pack_4_Streams_Difficult.java:124-125 | Sorting the formatted lines can invert the order of two tokens, one being a prefix of the other. |
| `StreamsDifficult.WordFrequenciesExample` | Homework_part2/src/main/java/com/homework/exercises/Pack_4_Streams_Difficult.java:117-132 | The sample text gives "bird - 1", "cat - 3", "dog - 2". |
| `StreamsDifficult.IntStreamSum` | Homework_part2/src/main/java/com/homework/exercises/Pack_4_Streams_Difficult.java:145 | `IntStream.reduce(0, (a, b) -> a + b)`: the exact sum reduced to an `int`. |
| `StreamsDifficult.LongStreamSum` | Homework_part2/src/main/java/com/homework/exercises/Pack_4_Streams_Difficult.java:145 | `LongStream.sum()`: the exact sum reduced to a `long`. |
| `StreamsDifficult.RowValues` | Homework_part2/src/main/java/com/homework/exercises/Pack_4_Streams_Difficult.java:145 | `mapToLong(number -> number * sum)`: each row number times the column sum, multiplied in `int`, then widened. |
| `StreamsDifficult.ChessBoardSum` | Homework_part2/src/main/java/com/homework/exercises/Pack_4_Streams_Difficult.java:138-145 | Exercise 6: when the column sum and every row product fit an `int` and the board fits a `long`, the result is the sum over all squares of row number times column number. |
| `StreamsDifficult.BoardFactor` | Homework_part2/src/main/java/com/homework/exercises/Pack_4_Streams_Difficult.java:145 | The sum over all squares equals the row sum times the column sum. |
| `StreamsDifficult.ChessBoardExample` | Homework_part2/src/main/java/com/homework/exercises/Pack_4_Streams_Difficult.java:141-147 | The given board sums to 4294973013. That is past the `int` range, where wrap-around would have left 5717. |
| `JavaInt.WrapInt` | Homework_part2/src/main/java/com/homework/exercises/Pack_4_Streams_Difficult.java:88 | The `int` congruent to x modulo 2^32; x itself when it is in range. |
| `JavaInt.WrapIntAdd` | Homework_part2/src/main/java/com/homework/exercises/Pack_4_Streams_Difficult.java:145 | Wrapping an intermediate sum does not change the wrapped total. |
| `JavaInt.WrapIntMul` | Homework_part1/src/main/java/CrazyLambdas.java:125 | Wrapping an intermediate product does not change the wrapped product. |
| `JavaInt.WrapLong` | Homework_part2/src/main/java/com/homework/exercises/Pack_4_Streams_Difficult.java:145 | The `long` congruent to x modulo 2^64; x itself when in range. |
| `CrazyLambdas.IsEmptyPredicate` | Homework_part1/src/main/java/CrazyLambdas.java:24-26 | `String::isEmpty`: true exactly for strings of length zero. |
| `CrazyLambdas.IsEmptyIsRangeZeroOne` | Homework_part1/src/main/java/CrazyLambdas.java:24-26 | Emptiness agrees with the length-range predicate for [0, 1). |
| `CrazyLambdas.Repeat` | Homework_part1/src/main/java/CrazyLambdas.java:34-41 | n copies of s have length n times the length of s. |
| `CrazyLambdas.StringMultiplier` | Homework_part1/src/main/java/CrazyLambdas.java:34-41 | The loop result is the empty string for a count of zero or less; otherwise it is the input repeated count times. |
| `CrazyLambdas.RepeatBlocks` | Homework_part1/src/main/java/CrazyLambdas.java:36-39 | The j-th block of length of s in the repetition is s itself. |
| `CrazyLambdas.RepeatAdd` | Homework_part1/src/main/java/CrazyLambdas.java:36-39 | Repeating a times and then b times is repeating a + b times. |
| `CrazyLambdas.And` | Homework_part1/src/main/java/CrazyLambdas.java:65 | `Predicate.and`: holds exactly where both predicates hold. |
| `CrazyLambdas.LengthInRangePredicate` | Homework_part1/src/main/java/CrazyLambdas.java:62-66 | True exactly when min <= length < max. |
| `CrazyLambdas.LengthInRangeEmpty` | Homework_part1/src/main/java/CrazyLambdas.java:62-66 | An empty or reversed range accepts no string. |
| `CrazyLambdas.NMultiplyFunctionSupplier` | Homework_part1/src/main/java/CrazyLambdas.java:124-125 | The supplied operator maps x to x * n in 32-bit arithmetic. |
| `CrazyLambdas.MultiplyCompose` | Homework_part1/src/main/java/CrazyLambdas.java:124-125 | Multiplying by b and then by a equals multiplying by the `int` product a * b. |
| `CrazyLambdas.MultiplyWraps` | Homework_part1/src/main/java/CrazyLambdas.java:125 | 65536 * 65536 overflows to 0. |
| `CrazyLambdas.ComposeWithTrimFunction` | Homework_part1/src/main/java/CrazyLambdas.java:133-134 | `function.compose(String::trim)`: applies the function to the trimmed input. |
| `CrazyLambdas.ComposeWithTrimIgnoresBlanks` | Homework_part1/src/main/java/CrazyLambdas.java:133-134 | The composed function gives the same result on an input and on its trimmed form, and composing twice is composing once. |
| `JavaString.Trim` | Homework_part1/src/main/java/CrazyLambdas.java:134 | `String.trim`: a substring of the input with no character at or below U+0020 at either end, and only such characters removed around it. |
| `JavaString.TrimIdempotent` | Homework_part1/src/main/java/CrazyLambdas.java:134 | Trimming twice is trimming once. |
| `CrazyLambdas.FunctionToConditionalFunction` | Homework_part1/src/main/java/CrazyLambdas.java:176-177 | Applies the operator where the predicate holds and returns the number unchanged elsewhere. |
| `CrazyLambdas.ConditionalExtremes` | Homework_part1/src/main/java/CrazyLambdas.java:176-177 | Under a never-true predicate the result is the identity; under an always-true one it is the operator. |
| `CrazyLambdas.Identity` | Homework_part1/src/main/java/CrazyLambdas.java:188 | `IntUnaryOperator.identity()` returns its argument. |
| `CrazyLambdas.FunctionLoader` | Homework_part1/src/main/java/CrazyLambdas.java:187-188 | The stored function when the name is a key; otherwise a function returning its argument. |
| `CrazyLambdas.FunctionLoaderStore` | Homework_part1/src/main/java/CrazyLambdas.java:187-188 | A function put under a name is loaded back by that name, and storing it leaves every other name's result unchanged. |

## Left out

- The employee data set (`Employees.allEmployees()`) and the test assertions on it: the pipelines take the staff as a parameter. The expected counts 110 and 1820 and the ten payroll lines depend on that data, which is not part of this model.
- Exercise 7, `@Ignore`d in the source: it depends on a pseudo-random generator's exact output.
- JUnit and shazamcrest plumbing (`assertThat`, `sameBeanAs`).
- `BigDecimal` internals: a salary is an exact rational number, and only `intValue` is modelled.
- `helloSupplier`, `randomIntSupplier`, `boundedRandomIntSupplier`, `trickyWellDoneSupplier`: constant or random suppliers with nothing to prove, or randomness.
- `runningThreadSupplier`, `newThreadRunnableConsumer`, `runnableToThreadSupplierFunction`: threads.
- `intSquareOperation` (floating-point `Math.pow`), `stringToIntConverter` (`Integer.parseInt`), `toDollarStringFunction` (`BigDecimal.toString`), `longSumOperation` and `main`: outside the modelled core.
- `StreamsDifficult.PayrollRanked`: non-increasing order is proved only when no salary is negative and no company payroll overflows. Otherwise `b - a` can wrap and is not a consistent comparator (`StreamsDifficult.ByTotalDescendingWraps`). `Sorting.Sort` still returns a permutation, but Java's TimSort may order the same input differently, since its binary insertion below 32 elements compares in another sequence. With 32 or more companies TimSort may instead throw `IllegalArgumentException`. Neither the TimSort order nor that exception is modelled.
- `StreamsDifficult.PayrollGrandTotal`: proved under the same no-overflow condition. Without it, each total is still the exact sum reduced to an `int` (`StreamsDifficult.RankedTotalsContent`).
- `StreamsDifficult.WordFrequencies`: states the ordering of lines. It does not prove that distinct tokens always give distinct lines, which holds because counts contain no " - ".
- HashMap iteration order: groups come in first-occurrence order of their keys. The exercise 4 order of companies with equal totals depends on it, and so does the whole exercise 4 order once `b - a` wraps.
- Java chars are UTF-16 code units; a Dafny `char` is a Unicode scalar value. Strings outside the Basic Multilingual Plane are not modelled. `DecimalFormat` is assumed to use a locale with ',' and '.' as separators.
- `Employee`, `Address` and `Company` are not part of this model. Their `equals` and `hashCode` are assumed to compare all fields, as `Records` does. The `!equals` test of exercise 1 (`StreamsDifficult.CopiesAreNotNamesakes`) and `distinct()` in exercise 3 rely on that assumption.
- Java `null` inputs and the `NullPointerException`s they would raise are not modelled; `Map.get` returning `null` for a key mapped to `null` is not modelled.
- The BiFunction and Supplier wrappers around `stringMultiplier`, `functionToConditionalFunction` and `functionLoader` are flattened: the Dafny member takes the BiFunction's arguments directly.
