/** The six aggregation pipelines of the exercise pack, each a function of the
    employee sequence (or of the exercise's own literal input). */
module StreamsDifficult {
  import opened Wrappers
  import opened JavaInt
  import opened JavaString
  import opened Decimal
  import opened Collect
  import opened Sorting
  import opened Records

  // ---------------------------------------------------------------------------
  // Exercise 1: the first employee sharing its full name with another record.

  /** `second` is a different record carrying the same first name and surname. */
  predicate IsNamesake(first: Employee, second: Employee) {
    && second != first
    && second.firstName == first.firstName
    && second.surname == first.surname
  }

  ghost predicate HasNamesake(staff: seq<Employee>, first: Employee) {
    exists j :: 0 <= j < |staff| && IsNamesake(first, staff[j])
  }

  /** The inner staff.stream().anyMatch(...). */
  function AnyNamesake(staff: seq<Employee>, first: Employee): (b: bool)
    ensures b <==> HasNamesake(staff, first)
  {
    if staff == [] then false
    else
      assert forall j :: 1 <= j < |staff| ==> staff[j] == staff[1..][j - 1];
      IsNamesake(first, staff[0]) || AnyNamesake(staff[1..], first)
  }

  /** filter(...).findFirst() over the candidates, in encounter order. */
  function FirstWithNamesake(candidates: seq<Employee>, staff: seq<Employee>): (r: Option<Employee>)
    ensures r.None? <==> forall i :: 0 <= i < |candidates| ==> !HasNamesake(staff, candidates[i])
    ensures r.Some? ==>
              exists i :: 0 <= i < |candidates| && candidates[i] == r.value
                          && HasNamesake(staff, candidates[i])
                          && forall k :: 0 <= k < i ==> !HasNamesake(staff, candidates[k])
  {
    if candidates == [] then None
    else if AnyNamesake(staff, candidates[0]) then Some(candidates[0])
    else
      var r := FirstWithNamesake(candidates[1..], staff);
      assert forall i :: 1 <= i < |candidates| ==> candidates[i] == candidates[1..][i - 1];
      assert r.Some? ==> exists i :: 1 <= i < |candidates| && candidates[i] == r.value
                          && HasNamesake(staff, candidates[i])
                          && forall k :: 0 <= k < i ==> !HasNamesake(staff, candidates[k]) by {
        if r.Some? {
          var i :| 0 <= i < |candidates[1..]| && candidates[1..][i] == r.value
                   && HasNamesake(staff, candidates[1..][i])
                   && forall k :: 0 <= k < i ==> !HasNamesake(staff, candidates[1..][k]);
          assert candidates[i + 1] == r.value;
          forall k | 0 <= k < i + 1 ensures !HasNamesake(staff, candidates[k]) {
            if k > 0 {
              assert candidates[k] == candidates[1..][k - 1];
            }
          }
        }
      }
      r
  }

  function FullName(e: Employee): string {
    e.firstName + " " + e.surname
  }

  /** Exercise 1: "first surname" of the first employee, in list order, for
      which some record not equal to it has the same first name and surname;
      None (Java's null) when there is no such employee. */
  function DuplicateName(staff: seq<Employee>): (r: Option<string>)
    ensures r.None? <==> forall i :: 0 <= i < |staff| ==> !HasNamesake(staff, staff[i])
    ensures r.Some? ==>
              exists i :: 0 <= i < |staff| && HasNamesake(staff, staff[i])
                          && (forall k :: 0 <= k < i ==> !HasNamesake(staff, staff[k]))
                          && r.value == FullName(staff[i])
  {
    match FirstWithNamesake(staff, staff)
    case None => None
    case Some(e) => Some(FullName(e))
  }

  /** A record is never its own namesake, nor is a copy of it: a staff made of
      copies of one record has no duplicate name. */
  lemma {:induction false} CopiesAreNotNamesakes(e: Employee, n: nat)
    ensures DuplicateName(seq(n, _ => e)) == None
  {
    var staff := seq(n, _ => e);
    forall i | 0 <= i < n ensures !HasNamesake(staff, staff[i]) {
      assert forall j :: 0 <= j < n ==> staff[j] == e;
    }
  }

  /** Two different records with one name: the earlier one's name is found. */
  lemma {:induction false} TwoNamesakesFound(a: Employee, b: Employee)
    requires a != b && a.firstName == b.firstName && a.surname == b.surname
    ensures DuplicateName([a, b]) == Some(FullName(a))
  {
    assert IsNamesake(a, [a, b][1]);
    assert HasNamesake([a, b], [a, b][0]);
  }

  // ---------------------------------------------------------------------------
  // Exercise 3: the distinct values among all correspondence and home addresses.

  /** flatMap(e -> Stream.of(e.getCorrespondenceAddress(), Optional.of(e.getHomeAddress()))). */
  function AddressSlots(staff: seq<Employee>): (slots: seq<Option<Address>>)
    ensures |slots| == 2 * |staff|
    ensures forall i :: 0 <= i < |staff| ==>
              slots[2 * i] == staff[i].correspondenceAddress && slots[2 * i + 1] == Some(staff[i].homeAddress)
  {
    if staff == [] then []
    else
      var e := staff[|staff| - 1];
      AddressSlots(staff[..|staff| - 1]) + [e.correspondenceAddress, Some(e.homeAddress)]
  }

  ghost function CorrespondenceValues(staff: seq<Employee>): set<Option<Address>> {
    set i | 0 <= i < |staff| :: staff[i].correspondenceAddress
  }

  ghost function HomeValues(staff: seq<Employee>): set<Option<Address>> {
    set i | 0 <= i < |staff| :: Some(staff[i].homeAddress)
  }

  ghost function HomeAddresses(staff: seq<Employee>): set<Address> {
    set i | 0 <= i < |staff| :: staff[i].homeAddress
  }

  /** Exercise 3: distinct().count() of the address slots. The values counted
      are Optional values: equal addresses from either slot collapse to one,
      and Optional.empty() is one more value when some employee lacks a
      correspondence address. */
  function DistinctAddressCount(staff: seq<Employee>): (r: nat)
    ensures r == |CorrespondenceValues(staff) + HomeValues(staff)|
  {
    var slots := AddressSlots(staff);
    DistinctCount(slots);
    SlotValues(staff);
    |Distinct(slots)|
  }

  lemma {:induction false} SlotValues(staff: seq<Employee>)
    ensures (set x | x in AddressSlots(staff)) == CorrespondenceValues(staff) + HomeValues(staff)
  {
    var slots := AddressSlots(staff);
    forall x | x in slots ensures x in CorrespondenceValues(staff) + HomeValues(staff) {
      var k :| 0 <= k < |slots| && slots[k] == x;
      var i := k / 2;
      if k == 2 * i {
        assert x == staff[i].correspondenceAddress;
      } else {
        assert k == 2 * i + 1;
        assert x == Some(staff[i].homeAddress);
      }
    }
    forall x | x in CorrespondenceValues(staff) + HomeValues(staff) ensures x in slots {
      if x in CorrespondenceValues(staff) {
        var i :| 0 <= i < |staff| && staff[i].correspondenceAddress == x;
        assert slots[2 * i] == x;
      } else {
        var i :| 0 <= i < |staff| && Some(staff[i].homeAddress) == x;
        assert slots[2 * i + 1] == x;
      }
    }
  }

  /** Optional.empty() is among the counted values exactly when some employee
      has no correspondence address. */
  lemma {:induction false} EmptyCountedIffMissing(staff: seq<Employee>)
    ensures None in CorrespondenceValues(staff) + HomeValues(staff)
            <==> exists i :: 0 <= i < |staff| && staff[i].correspondenceAddress.None?
  {
    if exists i :: 0 <= i < |staff| && staff[i].correspondenceAddress.None? {
      var i :| 0 <= i < |staff| && staff[i].correspondenceAddress.None?;
      assert staff[i].correspondenceAddress in CorrespondenceValues(staff);
    }
  }

  /** The count is at least the number of distinct home addresses and at most
      two per employee. */
  lemma {:induction false} DistinctAddressBounds(staff: seq<Employee>)
    ensures |HomeAddresses(staff)| <= DistinctAddressCount(staff) <= 2 * |staff|
  {
    HomeValuesCard(staff);
    SubsetCard(HomeValues(staff), CorrespondenceValues(staff) + HomeValues(staff));
    SlotValues(staff);
    ValuesAtMostLength(AddressSlots(staff));
  }

  lemma {:induction false} SubsetCard<T>(a: set<T>, b: set<T>)
    requires a <= b
    ensures |a| <= |b|
  {
    assert b == a + (b - a);
  }

  /** Wrapping in Optional.of keeps distinct addresses distinct. */
  lemma {:induction false} HomeValuesCard(staff: seq<Employee>)
    ensures |HomeValues(staff)| == |HomeAddresses(staff)|
  {
    if staff != [] {
      var init, e := staff[..|staff| - 1], staff[|staff| - 1];
      HomeValuesCard(init);
      HomeSnoc(staff);
      assert Some(e.homeAddress) in HomeValues(init) <==> e.homeAddress in HomeAddresses(init);
    }
  }

  /** How one more employee at the end adds to the home addresses. */
  lemma {:induction false} HomeSnoc(staff: seq<Employee>)
    requires staff != []
    ensures HomeValues(staff) == HomeValues(staff[..|staff| - 1]) + {Some(staff[|staff| - 1].homeAddress)}
    ensures HomeAddresses(staff) == HomeAddresses(staff[..|staff| - 1]) + {staff[|staff| - 1].homeAddress}
  {
    var init := staff[..|staff| - 1];
    assert forall i :: 0 <= i < |init| ==> staff[i] == init[i];
  }

  // ---------------------------------------------------------------------------
  // Exercise 2: groups of at least five employees sharing a post code prefix.

  /** The exception String.substring throws for bounds outside the string. */
  datatype Exception = StringIndexOutOfBounds(begin: int, end: int, length: int)

  const GROUP_MINIMUM: nat := 5

  predicate HasPrefix(e: Employee) {
    |e.homeAddress.postCode| >= 2
  }

  /** e.getHomeAddress().getPostCode().substring(0, 2). */
  function PostCodePrefix(e: Employee): string
    requires HasPrefix(e)
  {
    e.homeAddress.postCode[..2]
  }

  /** The position of the first employee whose post code is too short for
      substring(0, 2), or |staff| when there is none. */
  function FirstShortPostCode(staff: seq<Employee>): (k: nat)
    ensures k <= |staff|
    ensures k < |staff| ==> !HasPrefix(staff[k])
    ensures forall i :: 0 <= i < k ==> HasPrefix(staff[i])
  {
    if staff == [] then 0
    else if !HasPrefix(staff[0]) then 0
    else 1 + FirstShortPostCode(staff[1..])
  }

  /** The filter of exercise 2: the group has at least five members. */
  predicate IsLarge<K>(g: Group<K, Employee>) {
    |g.members| >= GROUP_MINIMUM
  }

  /** values().stream().filter(employees -> employees.size() >= 5): exactly
      the groups with at least five members, in their original order. */
  function LargeGroups<K>(gs: seq<Group<K, Employee>>): (r: seq<Group<K, Employee>>)
    ensures |r| <= |gs|
    ensures forall i :: 0 <= i < |r| ==> r[i] in gs && |r[i].members| >= GROUP_MINIMUM
    ensures forall i :: 0 <= i < |gs| && |gs[i].members| >= GROUP_MINIMUM ==> gs[i] in r
    ensures r == Select(gs, IsLarge, true)
  {
    if gs == [] then []
    else
      SelectCons(gs[0], gs[1..], IsLarge, true);
      assert [gs[0]] + gs[1..] == gs;
      (if |gs[0].members| >= GROUP_MINIMUM then [gs[0]] else []) + LargeGroups(gs[1..])
  }

  /** The keys of the groups with at least five members. */
  ghost function LargeKeys<K>(gs: seq<Group<K, Employee>>): set<K> {
    set i | 0 <= i < |gs| && |gs[i].members| >= GROUP_MINIMUM :: gs[i].key
  }

  /** With distinct keys, there are as many large groups as keys of large groups. */
  lemma {:induction false} LargeGroupsCount<K>(gs: seq<Group<K, Employee>>)
    requires NoDuplicates(Keys(gs))
    ensures |LargeGroups(gs)| == |LargeKeys(gs)|
  {
    if gs != [] {
      var rest := gs[1..];
      HeadKeyFresh(gs);
      LargeGroupsCount(rest);
      LargeKeysCons(gs);
    }
  }

  lemma {:induction false} HeadKeyFresh<K>(gs: seq<Group<K, Employee>>)
    requires gs != [] && NoDuplicates(Keys(gs))
    ensures NoDuplicates(Keys(gs[1..]))
    ensures gs[0].key !in LargeKeys(gs[1..])
  {
    var rest := gs[1..];
    forall i | 0 <= i < |rest| ensures Keys(rest)[i] == Keys(gs)[i + 1] && rest[i].key != gs[0].key {
      assert Keys(gs)[0] != Keys(gs)[i + 1];
    }
  }

  lemma {:induction false} LargeKeysCons<K>(gs: seq<Group<K, Employee>>)
    requires gs != []
    ensures LargeKeys(gs) == (if |gs[0].members| >= GROUP_MINIMUM then {gs[0].key} else {}) + LargeKeys(gs[1..])
  {
    var rest := gs[1..];
    var head := if |gs[0].members| >= GROUP_MINIMUM then {gs[0].key} else {};
    forall k | k in LargeKeys(gs) ensures k in head + LargeKeys(rest) {
      var i :| 0 <= i < |gs| && |gs[i].members| >= GROUP_MINIMUM && gs[i].key == k;
      if i > 0 {
        assert rest[i - 1] == gs[i];
      }
    }
    forall k | k in LargeKeys(rest) ensures k in LargeKeys(gs) {
      var i :| 0 <= i < |rest| && |rest[i].members| >= GROUP_MINIMUM && rest[i].key == k;
      assert gs[i + 1] == rest[i];
    }
  }

  /** The prefixes held by at least five employees. */
  ghost function LargePrefixes(staff: seq<Employee>): set<string>
    requires forall i :: 0 <= i < |staff| ==> HasPrefix(staff[i])
  {
    set i | 0 <= i < |staff| && |Select(staff, PostCodePrefix, PostCodePrefix(staff[i]))| >= GROUP_MINIMUM
      :: PostCodePrefix(staff[i])
  }

  /** Exercise 2: the number of distinct two-character home post code prefixes
      shared by at least five employees. When some post code is shorter than
      two characters, substring throws for the first such employee. */
  function CloseGroupCount(staff: seq<Employee>): (r: Result<nat, Exception>)
    ensures r.Failure? <==> exists i :: 0 <= i < |staff| && !HasPrefix(staff[i])
    ensures r.Failure? ==>
              exists i :: 0 <= i < |staff| && !HasPrefix(staff[i])
                          && (forall k :: 0 <= k < i ==> HasPrefix(staff[k]))
                          && r.error == StringIndexOutOfBounds(0, 2, |staff[i].homeAddress.postCode|)
    ensures r.Success? ==>
              && (forall i :: 0 <= i < |staff| ==> HasPrefix(staff[i]))
              && r.value == |LargePrefixes(staff)|
  {
    var k := FirstShortPostCode(staff);
    if k < |staff| then
      Failure(StringIndexOutOfBounds(0, 2, |staff[k].homeAddress.postCode|))
    else
      var gs := GroupingBy(staff, PostCodePrefix);
      LargeGroupsArePrefixes(staff, gs);
      Success(|LargeGroups(gs)|)
  }

  lemma {:induction false} LargeGroupsArePrefixes(staff: seq<Employee>, gs: seq<Group<string, Employee>>)
    requires forall i :: 0 <= i < |staff| ==> HasPrefix(staff[i])
    requires gs == GroupingBy(staff, PostCodePrefix)
    ensures |LargeGroups(gs)| == |LargePrefixes(staff)|
  {
    LargeGroupsCount(gs);
    LargeKeysArePrefixes(staff, gs);
    LargePrefixesAreKeys(staff, gs);
    assert LargeKeys(gs) == LargePrefixes(staff);
  }

  lemma {:induction false} LargeKeysArePrefixes(staff: seq<Employee>, gs: seq<Group<string, Employee>>)
    requires forall i :: 0 <= i < |staff| ==> HasPrefix(staff[i])
    requires forall i :: 0 <= i < |gs| ==>
               gs[i].members != [] && gs[i].members == Select(staff, PostCodePrefix, gs[i].key)
    ensures LargeKeys(gs) <= LargePrefixes(staff)
  {
    forall p | p in LargeKeys(gs) ensures p in LargePrefixes(staff) {
      var i :| 0 <= i < |gs| && |gs[i].members| >= GROUP_MINIMUM && gs[i].key == p;
      var m := gs[i].members;
      assert m == Select(staff, PostCodePrefix, p);
      var j :| 0 <= j < |staff| && staff[j] == m[0];
      assert PostCodePrefix(staff[j]) == p;
    }
  }

  lemma {:induction false} LargePrefixesAreKeys(staff: seq<Employee>, gs: seq<Group<string, Employee>>)
    requires forall i :: 0 <= i < |staff| ==> HasPrefix(staff[i])
    requires forall i :: 0 <= i < |gs| ==>
               gs[i].members != [] && gs[i].members == Select(staff, PostCodePrefix, gs[i].key)
    requires SetOf(Keys(gs)) == KeySet(staff, PostCodePrefix)
    ensures LargePrefixes(staff) <= LargeKeys(gs)
  {
    forall p | p in LargePrefixes(staff) ensures p in LargeKeys(gs) {
      var j :| 0 <= j < |staff| && |Select(staff, PostCodePrefix, PostCodePrefix(staff[j]))| >= GROUP_MINIMUM
               && PostCodePrefix(staff[j]) == p;
      assert p in KeySet(staff, PostCodePrefix);
      assert p in SetOf(Keys(gs));
      var i :| 0 <= i < |gs| && Keys(gs)[i] == p;
      assert |gs[i].members| >= GROUP_MINIMUM;
    }
  }

  /** There cannot be more groups of five than a fifth of the staff. */
  lemma {:induction false} CloseGroupCountBound(staff: seq<Employee>)
    requires forall i :: 0 <= i < |staff| ==> HasPrefix(staff[i])
    ensures CloseGroupCount(staff).Success?
    ensures CloseGroupCount(staff).value * GROUP_MINIMUM <= |staff|
  {
    var gs := GroupingBy(staff, PostCodePrefix);
    var one := (e: Employee) => 1;
    GroupingBySum(staff, PostCodePrefix, one);
    SumOfOne(staff);
    LargeGroupsBound(gs);
  }

  lemma {:induction false} SumOfOne<T>(xs: seq<T>)
    ensures SumOf(xs, (x: T) => 1) == |xs|
  {
    if xs != [] {
      SumOfOne(xs[..|xs| - 1]);
    }
  }

  lemma {:induction false} LargeGroupsBound<K>(gs: seq<Group<K, Employee>>)
    ensures |LargeGroups(gs)| * GROUP_MINIMUM <= GroupsSum(gs, (e: Employee) => 1)
  {
    if gs != [] {
      LargeGroupsBound(gs[1..]);
      SumOfOne(gs[0].members);
    }
  }

  // ---------------------------------------------------------------------------
  // Exercise 4: what each company pays in total, highest first, as currency.

  /** The integer part of x, dropping the fraction toward zero. */
  function TruncateTowardZero(x: real): (n: int)
    ensures x >= 0.0 ==> n as real <= x < n as real + 1.0
    ensures x < 0.0 ==> n as real - 1.0 < x <= n as real
  {
    if x >= 0.0 then x.Floor else -((-x).Floor)
  }

  /** BigDecimal.intValue: the integer part, of which only the low 32 bits are kept. */
  function IntValue(x: real): (n: int32)
    ensures IsInt(TruncateTowardZero(x)) ==> n == TruncateTowardZero(x)
    ensures (TruncateTowardZero(x) - n) % (2 * INT_HALF) == 0
  {
    WrapInt(TruncateTowardZero(x))
  }

  function SalaryOf(e: Employee): int {
    IntValue(e.salary)
  }

  function CompanyName(e: Employee): string {
    e.company.name
  }

  /** Collectors.summingInt(e -> e.getSalary().intValue()): each salary is
      truncated on its own, then the values are added in `int` arithmetic. */
  function SummingInt(members: seq<Employee>): (total: int32)
    ensures total == WrapInt(SumOf(members, SalaryOf))
  {
    if members == [] then 0
    else
      var init := members[..|members| - 1];
      WrapIntAdd(SumOf(init, SalaryOf), SalaryOf(members[|members| - 1]));
      WrapInt(SummingInt(init) + SalaryOf(members[|members| - 1]))
  }

  datatype CompanyTotal = CompanyTotal(name: string, total: int32)

  /** groupingBy(company name, HashMap::new, summingInt(...)).entrySet(). */
  function CompanyTotals(staff: seq<Employee>): (ts: seq<CompanyTotal>)
    ensures var gs := GroupingBy(staff, CompanyName);
            |ts| == |gs| && forall i :: 0 <= i < |ts| ==> ts[i] == CompanyTotal(gs[i].key, SummingInt(gs[i].members))
  {
    var gs := GroupingBy(staff, CompanyName);
    seq(|gs|, i requires 0 <= i < |gs| => CompanyTotal(gs[i].key, SummingInt(gs[i].members)))
  }

  /** The comparator (a, b) -> b.getValue() - a.getValue(), subtracting in `int`. */
  function ByTotalDescending(a: CompanyTotal, b: CompanyTotal): (c: int)
    ensures IsInt(c)
    ensures IsInt(b.total - a.total) ==> c == b.total - a.total
    ensures IsInt(b.total - a.total) ==> (c < 0 <==> a.total > b.total) && (c == 0 <==> a.total == b.total)
    ensures (b.total - a.total - c) % (2 * INT_HALF) == 0
  {
    WrapInt(b.total - a.total)
  }

  /** Once b - a wraps, the comparator is inconsistent: it puts each of the
      two totals before the other. */
  lemma ByTotalDescendingWraps()
    ensures var a, b := CompanyTotal("A", -0x8000_0000), CompanyTotal("B", 0);
            ByTotalDescending(a, b) < 0 && ByTotalDescending(b, a) < 0
  {
    assert 0x8000_0000 - (-0x8000_0000) == 2 * INT_HALF;
  }

  /** sorted((a, b) -> b.getValue() - a.getValue()) over the company totals:
      a reordering of the totals. */
  function RankedTotals(staff: seq<Employee>): (ranked: seq<CompanyTotal>)
    ensures multiset(ranked) == multiset(CompanyTotals(staff))
    ensures |ranked| == |CompanyTotals(staff)|
  {
    Sort(CompanyTotals(staff), ByTotalDescending)
  }

  /** mapEntry.getKey() + " - " + decimalFormat.format(mapEntry.getValue()):
      the company name, " - ", then the amount laid out as "£#,###.00". */
  function PayrollLine(t: CompanyTotal): (line: string)
    ensures |line| >= |t.name| + 3
    ensures line[..|t.name|] == t.name && line[|t.name|..|t.name| + 3] == " - "
    ensures ParsePounds(line[|t.name| + 3..]) == Some(t.total as int)
    ensures PoundsLayout(line[|t.name| + 3..], t.total)
  {
    var amount := FormatPounds(t.total);
    var line := t.name + " - " + amount;
    assert line[..|t.name|] == t.name && line[|t.name|..|t.name| + 3] == " - " && line[|t.name| + 3..] == amount;
    line
  }

  ghost function CompanyNames(staff: seq<Employee>): set<string> {
    KeySet(staff, CompanyName)
  }

  /** Exercise 4: one line per company, in the order of the ranked totals;
      there is no limit on the number of lines. */
  function PayrollReport(staff: seq<Employee>): (lines: seq<string>)
    ensures |lines| == |CompanyNames(staff)|
    ensures |lines| == |RankedTotals(staff)|
    ensures forall i :: 0 <= i < |lines| ==> lines[i] == PayrollLine(RankedTotals(staff)[i])
  {
    GroupCount(staff, CompanyName);
    PayrollLines(RankedTotals(staff))
  }

  function PayrollLines(ranked: seq<CompanyTotal>): (lines: seq<string>)
    ensures |lines| == |ranked|
    ensures forall i :: 0 <= i < |lines| ==> lines[i] == PayrollLine(ranked[i])
  {
    seq(|ranked|, i requires 0 <= i < |ranked| => PayrollLine(ranked[i]))
  }

  /** The employees of the company with the given name, in list order. */
  function StaffOf(staff: seq<Employee>, name: string): seq<Employee> {
    Select(staff, CompanyName, name)
  }

  /** Each ranked entry is a company of the staff with, as its total, the
      per-employee truncated salaries of that company's employees added up in
      `int`; every company has exactly one entry. */
  lemma {:induction false} RankedTotalsContent(staff: seq<Employee>)
    ensures forall i :: 0 <= i < |RankedTotals(staff)| ==>
              var t := RankedTotals(staff)[i];
              t.name in CompanyNames(staff) && t.total == WrapInt(SumOf(StaffOf(staff, t.name), SalaryOf))
    ensures forall name :: name in CompanyNames(staff) ==>
              exists i :: 0 <= i < |RankedTotals(staff)| && RankedTotals(staff)[i].name == name
    ensures forall i, j :: 0 <= i < j < |RankedTotals(staff)| ==>
              RankedTotals(staff)[i].name != RankedTotals(staff)[j].name
  {
    RankedEntries(staff);
    RankedCoversAll(staff);
    RankedDistinct(staff);
  }

  lemma {:induction false} RankedEntries(staff: seq<Employee>)
    ensures forall i :: 0 <= i < |RankedTotals(staff)| ==>
              var t := RankedTotals(staff)[i];
              t.name in CompanyNames(staff) && t.total == WrapInt(SumOf(StaffOf(staff, t.name), SalaryOf))
  {
    forall i | 0 <= i < |RankedTotals(staff)|
      ensures RankedTotals(staff)[i].name in CompanyNames(staff)
      ensures RankedTotals(staff)[i].total == WrapInt(SumOf(StaffOf(staff, RankedTotals(staff)[i].name), SalaryOf))
    {
      RankedEntry(staff, i);
    }
  }

  lemma {:induction false} RankedCoversAll(staff: seq<Employee>)
    ensures forall name :: name in CompanyNames(staff) ==>
              exists i :: 0 <= i < |RankedTotals(staff)| && RankedTotals(staff)[i].name == name
  {
    forall name | name in CompanyNames(staff)
      ensures exists i :: 0 <= i < |RankedTotals(staff)| && RankedTotals(staff)[i].name == name
    {
      RankedCovers(staff, name);
    }
  }

  lemma {:induction false} RankedDistinct(staff: seq<Employee>)
    ensures forall i, j :: 0 <= i < j < |RankedTotals(staff)| ==>
              RankedTotals(staff)[i].name != RankedTotals(staff)[j].name
  {
    DistinctNamesAll(CompanyTotals(staff), RankedTotals(staff), GroupingBy(staff, CompanyName));
  }

  lemma {:induction false} DistinctNamesAll(ts: seq<CompanyTotal>, ranked: seq<CompanyTotal>,
                         gs: seq<Group<string, Employee>>)
    requires |ts| == |gs| && forall k :: 0 <= k < |ts| ==> ts[k].name == gs[k].key
    requires NoDuplicates(Keys(gs))
    requires multiset(ranked) == multiset(ts)
    ensures forall i, j :: 0 <= i < j < |ranked| ==> ranked[i].name != ranked[j].name
  {
    forall i, j | 0 <= i < j < |ranked|
      ensures ranked[i].name != ranked[j].name
    {
      DistinctNamesSorted(ts, ranked, gs, i, j);
    }
  }

  lemma {:induction false} RankedEntry(staff: seq<Employee>, i: nat)
    requires i < |RankedTotals(staff)|
    ensures RankedTotals(staff)[i].name in CompanyNames(staff)
    ensures RankedTotals(staff)[i].total == WrapInt(SumOf(StaffOf(staff, RankedTotals(staff)[i].name), SalaryOf))
  {
    var gs := GroupingBy(staff, CompanyName);
    var ts := CompanyTotals(staff);
    var ranked := RankedTotals(staff);
    assert ranked[i] in multiset(ts);
    var k :| 0 <= k < |ts| && ts[k] == ranked[i];
    assert Keys(gs)[k] in SetOf(Keys(gs));
  }

  lemma {:induction false} RankedCovers(staff: seq<Employee>, name: string)
    requires name in CompanyNames(staff)
    ensures exists i :: 0 <= i < |RankedTotals(staff)| && RankedTotals(staff)[i].name == name
  {
    var gs := GroupingBy(staff, CompanyName);
    var ts := CompanyTotals(staff);
    var ranked := RankedTotals(staff);
    assert name in SetOf(Keys(gs));
    var k :| 0 <= k < |gs| && Keys(gs)[k] == name;
    assert ts[k] in multiset(ranked);
    var i :| 0 <= i < |ranked| && ranked[i] == ts[k];
  }

  lemma {:induction false} DistinctNamesSorted(ts: seq<CompanyTotal>, ranked: seq<CompanyTotal>,
                            gs: seq<Group<string, Employee>>, i: nat, j: nat)
    requires |ts| == |gs| && forall k :: 0 <= k < |ts| ==> ts[k].name == gs[k].key
    requires NoDuplicates(Keys(gs))
    requires multiset(ranked) == multiset(ts)
    requires i < j < |ranked|
    ensures ranked[i].name != ranked[j].name
  {
    assert ranked[i] in multiset(ts) && ranked[j] in multiset(ts);
    var a :| 0 <= a < |ts| && ts[a] == ranked[i];
    var b :| 0 <= b < |ts| && ts[b] == ranked[j];
    if a == b {
      // The same entry twice in ranked would occur twice in ts.
      MultisetTwoPositions(ranked, i, j);
      assert multiset(ts)[ts[a]] >= 2;
      OnePosition(ts, gs, a);
    } else {
      assert Keys(gs)[a] != Keys(gs)[b];
    }
  }

  lemma {:induction false} MultisetTwoPositions<T>(s: seq<T>, i: nat, j: nat)
    requires i < j < |s| && s[i] == s[j]
    ensures multiset(s)[s[i]] >= 2
  {
    assert s == s[..i] + [s[i]] + s[i + 1..j] + [s[j]] + s[j + 1..];
  }

  /** An entry whose key occurs once occurs once. */
  lemma {:induction false} OnePosition(ts: seq<CompanyTotal>, gs: seq<Group<string, Employee>>, a: nat)
    requires |ts| == |gs| && forall k :: 0 <= k < |ts| ==> ts[k].name == gs[k].key
    requires NoDuplicates(Keys(gs))
    requires a < |ts|
    ensures multiset(ts)[ts[a]] == 1
  {
    var x := ts[a];
    assert ts == ts[..a] + [x] + ts[a + 1..];
    assert x !in ts[..a] by {
      forall k | 0 <= k < a ensures ts[..a][k] != x {
        assert Keys(gs)[k] != Keys(gs)[a];
      }
    }
    assert x !in ts[a + 1..] by {
      forall k | a < k < |ts| ensures ts[k] != x {
        assert Keys(gs)[k] != Keys(gs)[a];
      }
    }
  }

  /** No salary is negative and no company's payroll exceeds the `int` range. */
  ghost predicate PayrollFits(staff: seq<Employee>) {
    forall i :: 0 <= i < |staff| ==>
      SalaryOf(staff[i]) >= 0 && IsInt(SumOf(StaffOf(staff, CompanyName(staff[i])), SalaryOf))
  }

  /** When the payroll fits, the lines come out in non-increasing order of
      total. Among equal totals the order is the stable sort's. */
  lemma {:induction false} PayrollRanked(staff: seq<Employee>)
    requires PayrollFits(staff)
    ensures forall i, j :: 0 <= i < j < |RankedTotals(staff)| ==>
              RankedTotals(staff)[i].total >= RankedTotals(staff)[j].total
  {
    var ts := CompanyTotals(staff);
    var s := SetOf(ts);
    forall t | t in s ensures t.total >= 0 {
      var k :| 0 <= k < |ts| && ts[k] == t;
      TotalNonNegative(staff, k);
    }
    DescendingIsComparator(s);
    forall i | 0 <= i < |ts| ensures ts[i] in s { }
    SortSorted(ts, ByTotalDescending, s);
    SortedDescending(ts, Sort(ts, ByTotalDescending), s);
  }

  /** On non-negative totals the subtraction cannot wrap, so b - a is a
      comparator. */
  lemma {:induction false} DescendingIsComparator(s: set<CompanyTotal>)
    requires forall t :: t in s ==> t.total >= 0
    ensures ComparatorOn(ByTotalDescending, s)
  {
  }

  lemma {:induction false} SortedDescending(ts: seq<CompanyTotal>, ranked: seq<CompanyTotal>, s: set<CompanyTotal>)
    requires forall t :: t in s ==> t.total >= 0
    requires multiset(ranked) == multiset(ts)
    requires forall i :: 0 <= i < |ts| ==> ts[i] in s
    requires SortedBy(ranked, ByTotalDescending)
    ensures forall i, j :: 0 <= i < j < |ranked| ==> ranked[i].total >= ranked[j].total
  {
    forall i, j | 0 <= i < j < |ranked| ensures ranked[i].total >= ranked[j].total {
      assert ranked[i] in multiset(ts) && ranked[j] in multiset(ts);
      assert ranked[i] in s && ranked[j] in s;
      assert ByTotalDescending(ranked[i], ranked[j]) <= 0;
    }
  }

  /** When the payroll fits, a company's total is its exact, non-negative sum. */
  lemma {:induction false} TotalNonNegative(staff: seq<Employee>, k: nat)
    requires PayrollFits(staff)
    requires k < |CompanyTotals(staff)|
    ensures CompanyTotals(staff)[k].total == SumOf(StaffOf(staff, CompanyTotals(staff)[k].name), SalaryOf) >= 0
  {
    var gs := GroupingBy(staff, CompanyName);
    var m := gs[k].members;
    var e := m[0];
    assert e in staff;
    var j :| 0 <= j < |staff| && staff[j] == e;
    assert CompanyName(e) == gs[k].key;
    forall i | 0 <= i < |m| ensures SalaryOf(m[i]) >= 0 {
      assert m[i] in staff;
    }
    SumOfNonNegative(m);
  }

  lemma {:induction false} SumOfNonNegative(m: seq<Employee>)
    requires forall i :: 0 <= i < |m| ==> SalaryOf(m[i]) >= 0
    ensures SumOf(m, SalaryOf) >= 0
  {
    if m != [] {
      SumOfNonNegative(m[..|m| - 1]);
    }
  }

  function TotalOf(t: CompanyTotal): int {
    t.total
  }

  /** When the payroll fits, the company totals add up to the whole staff's
      truncated salaries: grouping loses and duplicates no employee. */
  lemma {:induction false} PayrollGrandTotal(staff: seq<Employee>)
    requires PayrollFits(staff)
    ensures SumOf(CompanyTotals(staff), TotalOf) == SumOf(staff, SalaryOf)
  {
    var gs := GroupingBy(staff, CompanyName);
    var ts := CompanyTotals(staff);
    forall k | 0 <= k < |ts| ensures ts[k].total == SumOf(gs[k].members, SalaryOf) {
      TotalNonNegative(staff, k);
    }
    TotalsMatchGroups(ts, gs);
    GroupingBySum(staff, CompanyName, SalaryOf);
  }

  lemma {:induction false} TotalsMatchGroups(ts: seq<CompanyTotal>, gs: seq<Group<string, Employee>>)
    requires |ts| == |gs|
    requires forall k :: 0 <= k < |ts| ==> ts[k].total == SumOf(gs[k].members, SalaryOf)
    ensures SumOf(ts, TotalOf) == GroupsSum(gs, SalaryOf)
  {
    if ts != [] {
      TotalsMatchGroups(ts[1..], gs[1..]);
      assert ts == [ts[0]] + ts[1..];
      SumOfCons(ts[0], ts[1..], TotalOf);
    }
  }

  /** Each salary is truncated before the addition, so two halves make
      nothing; negative salaries truncate toward zero; and a payroll past
      the `int` range wraps around. */
  lemma {:induction false} PayrollArithmetic(a: Employee, b: Employee)
    ensures a.salary == 0.5 && b.salary == 0.5 ==> SummingInt([a, b]) == 0
    ensures a.salary == -1.5 ==> SalaryOf(a) == -1
    ensures a.salary == 2147483647.0 && b.salary == 1.0 ==> SummingInt([a, b]) == -2147483648
  {
    SummingTwo(a, b);
    if a.salary == 2147483647.0 && b.salary == 1.0 {
      assert SalaryOf(a) + SalaryOf(b) == INT_HALF;
    }
  }

  lemma {:induction false} SummingTwo(a: Employee, b: Employee)
    ensures SummingInt([a, b]) == WrapInt(SalaryOf(a) + SalaryOf(b))
  {
    assert [a, b][..1] == [a];
    assert [a][..0] == [];
  }

  // ---------------------------------------------------------------------------
  // Exercise 5: how often each line of a text occurs, reported in string order.

  /** The grouping key str -> str. */
  function Word(s: string): string {
    s
  }

  /** entry.getKey() + " - " + entry.getValue() for a counted word. */
  function FrequencyLine(g: Group<string, string>): string {
    g.key + " - " + NatToString(|g.members|)
  }

  function FrequencyLines(gs: seq<Group<string, string>>): (lines: seq<string>)
    ensures |lines| == |gs|
    ensures forall i :: 0 <= i < |gs| ==> lines[i] == FrequencyLine(gs[i])
  {
    seq(|gs|, i requires 0 <= i < |gs| => FrequencyLine(gs[i]))
  }

  /** The tokens of String.split("\n"). */
  function Tokens(text: string): seq<string> {
    Split(text, '\n')
  }

  /** Exercise 5: the text is split at line breaks, equal tokens are counted
      (groupingBy with counting), each count is formatted as
      "token - count", and the formatted lines are sorted by
      String.compareTo. */
  function WordFrequencies(text: string): (r: seq<string>)
    ensures |r| == |set w | w in Tokens(text)|
    ensures forall i :: 0 <= i < |r| ==>
              exists w :: w in Tokens(text) && CountedLine(r[i], w, Tokens(text))
    ensures forall w :: w in Tokens(text) ==>
              exists i :: 0 <= i < |r| && CountedLine(r[i], w, Tokens(text))
    ensures forall i, j :: 0 <= i < j < |r| ==> r[i] == r[j] || LexLess(r[i], r[j])
  {
    var tokens := Tokens(text);
    CountedLinesCount(tokens);
    CountedLinesSound(tokens);
    CountedLinesComplete(tokens);
    CountedLinesSorted(tokens);
    CountedLines(tokens)
  }

  /** The part of exercise 5 after the split: equal tokens grouped and
      counted, formatted as "token - count", sorted by String.compareTo. */
  function CountedLines(tokens: seq<string>): seq<string> {
    Sort(FrequencyLines(GroupingBy(tokens, Word)), CompareTo)
  }

  /** Grouping by the element itself collects each value as many times as it occurs. */
  lemma {:induction false} SelectWordCount(xs: seq<string>, w: string)
    ensures |Select(xs, Word, w)| == multiset(xs)[w]
  {
    if xs != [] {
      var init, last := xs[..|xs| - 1], xs[|xs| - 1];
      assert xs == init + [last];
      SelectWordCount(init, w);
    }
  }

  /** The lines are in non-decreasing String.compareTo order. */
  lemma {:induction false} CountedLinesSorted(tokens: seq<string>)
    ensures forall i, j :: 0 <= i < j < |CountedLines(tokens)| ==>
              var a, b := CountedLines(tokens)[i], CountedLines(tokens)[j];
              a == b || LexLess(a, b)
  {
    var lines := FrequencyLines(GroupingBy(tokens, Word));
    var s := SetOf(lines);
    forall a, b | a in s && b in s && CompareTo(a, b) > 0 ensures CompareTo(b, a) <= 0 {
      CompareToAntisymmetric(a, b);
    }
    forall a, b, c | a in s && b in s && c in s && CompareTo(a, b) <= 0 && CompareTo(b, c) <= 0
      ensures CompareTo(a, c) <= 0
    {
      CompareToTransitive(a, b, c);
    }
    forall i | 0 <= i < |lines| ensures lines[i] in s { }
    SortSorted(lines, CompareTo, s);
    var r := CountedLines(tokens);
    forall i, j | 0 <= i < j < |r| ensures r[i] == r[j] || LexLess(r[i], r[j]) {
      assert CompareTo(r[i], r[j]) <= 0;
    }
  }

  /** One line per distinct token. */
  lemma {:induction false} CountedLinesCount(tokens: seq<string>)
    ensures |CountedLines(tokens)| == |set w | w in tokens|
  {
    GroupCount(tokens, Word);
    forall w | w in tokens ensures w in KeySet(tokens, Word) {
      var j :| 0 <= j < |tokens| && tokens[j] == w;
      assert Word(tokens[j]) in KeySet(tokens, Word);
    }
    assert KeySet(tokens, Word) == set w | w in tokens;
  }

  /** line reports the token w with the number of times it occurs in tokens. */
  predicate CountedLine(line: string, w: string, tokens: seq<string>) {
    line == w + " - " + NatToString(multiset(tokens)[w])
  }

  /** Every line gives a token of the list together with the number of times
      it occurs. */
  lemma {:induction false} CountedLinesSound(tokens: seq<string>)
    ensures forall i :: 0 <= i < |CountedLines(tokens)| ==>
              exists w :: w in tokens &&
                CountedLine(CountedLines(tokens)[i], w, tokens)
  {
    var r := CountedLines(tokens);
    forall i | 0 <= i < |r|
      ensures exists w :: w in tokens && CountedLine(r[i], w, tokens)
    {
      var w := FrequencyLineOf(tokens, i);
      assert w in tokens && CountedLine(r[i], w, tokens);
    }
  }

  /** Every token of the list has a line giving the number of times it occurs. */
  lemma {:induction false} CountedLinesComplete(tokens: seq<string>)
    ensures forall w :: w in tokens ==>
              exists i :: 0 <= i < |CountedLines(tokens)| &&
                CountedLine(CountedLines(tokens)[i], w, tokens)
  {
    var r := CountedLines(tokens);
    forall w | w in tokens
      ensures exists i :: 0 <= i < |r| && CountedLine(r[i], w, tokens)
    {
      var i := FrequencyLineFor(tokens, w);
    }
  }

  /** The counting() values of the groups, added up. */
  ghost function CountsTotal(gs: seq<Group<string, string>>): int {
    if gs == [] then 0 else |gs[0].members| + CountsTotal(gs[1..])
  }

  /** The counts of exercise 5 add up to the number of tokens split off. */
  lemma {:induction false} CountsSumToTokens(text: string)
    ensures CountsTotal(GroupingBy(Tokens(text), Word)) == |Tokens(text)|
  {
    var tokens := Tokens(text);
    GroupingBySum(tokens, Word, (w: string) => 1);
    SumOfOne(tokens);
    CountsAreSums(GroupingBy(tokens, Word));
  }

  lemma {:induction false} CountsAreSums(gs: seq<Group<string, string>>)
    ensures CountsTotal(gs) == GroupsSum(gs, (w: string) => 1)
  {
    if gs != [] {
      CountsAreSums(gs[1..]);
      SumOfOne(gs[0].members);
    }
  }

  lemma {:induction false} FrequencyLineOf(tokens: seq<string>, i: nat) returns (w: string)
    requires i < |CountedLines(tokens)|
    ensures w in tokens
    ensures CountedLine(CountedLines(tokens)[i], w, tokens)
  {
    var gs := GroupingBy(tokens, Word);
    var lines := FrequencyLines(gs);
    var r := CountedLines(tokens);
    assert r[i] in multiset(lines);
    var k :| 0 <= k < |lines| && lines[k] == r[i];
    w := gs[k].key;
    assert gs[k].members[0] in tokens;
    SelectWordCount(tokens, w);
  }

  lemma {:induction false} FrequencyLineFor(tokens: seq<string>, w: string) returns (i: nat)
    requires w in tokens
    ensures i < |CountedLines(tokens)|
    ensures CountedLine(CountedLines(tokens)[i], w, tokens)
  {
    var gs := GroupingBy(tokens, Word);
    var lines := FrequencyLines(gs);
    var r := CountedLines(tokens);
    var j :| 0 <= j < |tokens| && tokens[j] == w;
    assert Word(tokens[j]) in KeySet(tokens, Word);
    assert w in SetOf(Keys(gs));
    var k :| 0 <= k < |gs| && Keys(gs)[k] == w;
    SelectWordCount(tokens, w);
    assert lines[k] in multiset(r);
    i :| 0 <= i < |r| && r[i] == lines[k];
  }

  /** The text of the exercise, built as the source builds it. */
  const SAMPLE_TEXT: string := "dog" + "\n" + "bird" + "\n" + "cat" + "\n" + "cat" + "\n" + "dog" + "\n" + "cat"
  const SAMPLE_TOKENS: seq<string> := ["dog", "bird", "cat", "cat", "dog", "cat"]

  lemma SampleJoin()
    ensures Join(SAMPLE_TOKENS, '\n') == SAMPLE_TEXT
  {
    var p := SAMPLE_TOKENS;
    assert p[1..][1..][1..][1..][1..] == ["cat"];
    assert Join(p[1..][1..][1..][1..], '\n') == "dog" + "\n" + "cat";
    assert Join(p[1..][1..][1..], '\n') == "cat" + "\n" + "dog" + "\n" + "cat";
    assert Join(p[1..][1..], '\n') == "cat" + "\n" + "cat" + "\n" + "dog" + "\n" + "cat";
    assert Join(p[1..], '\n') == "bird" + "\n" + "cat" + "\n" + "cat" + "\n" + "dog" + "\n" + "cat";
  }

  lemma SampleTokens()
    ensures Tokens(SAMPLE_TEXT) == SAMPLE_TOKENS
  {
    var p := SAMPLE_TOKENS;
    forall i | 0 <= i < |p| ensures '\n' !in p[i] { }
    assert p[5] == "cat";
    SampleJoin();
    SplitOfJoin(p, '\n');
  }

  lemma {:induction false} GroupingByWordStep(xs: seq<string>, x: string, gs: seq<Group<string, string>>)
    requires GroupingBy(xs, Word) == gs
    ensures GroupingBy(xs + [x], Word) == Accumulate(gs, x, x)
  {
    assert (xs + [x])[..|xs|] == xs;
  }

  lemma {:induction false} AccumulateAt(gs: seq<Group<string, string>>, j: nat, x: string)
    requires j < |gs| && gs[j].key == x
    requires forall i :: 0 <= i < j ==> gs[i].key != x
    ensures Accumulate(gs, x, x) == gs[j := Group(x, gs[j].members + [x])]
  {
  }

  lemma {:induction false} AccumulateFresh(gs: seq<Group<string, string>>, x: string)
    requires forall i :: 0 <= i < |gs| ==> gs[i].key != x
    ensures Accumulate(gs, x, x) == gs + [Group(x, [x])]
  {
  }

  lemma {:induction false} SampleGroups1(d: string)
    ensures GroupingBy([d], Word) == [Group(d, [d])]
  {
    assert GroupingBy([], Word) == [];
    GroupingByWordStep([], d, []);
    assert [] + [d] == [d];
    AccumulateFresh([], d);
  }

  lemma {:induction false} SampleGroups2(d: string, b: string)
    requires d != b
    ensures GroupingBy([d, b], Word) == [Group(d, [d]), Group(b, [b])]
  {
    var g := [Group(d, [d])];
    AccumulateFresh(g, b);
    SampleGroups1(d);
    assert [d] + [b] == [d, b];
    GroupingByWordStep([d], b, g);
  }

  lemma {:induction false} SampleGroups3(d: string, b: string, c: string)
    requires d != b && d != c && b != c
    ensures GroupingBy([d, b, c], Word) == [Group(d, [d]), Group(b, [b]), Group(c, [c])]
  {
    var g := [Group(d, [d]), Group(b, [b])];
    AccumulateFresh(g, c);
    SampleGroups2(d, b);
    assert [d, b] + [c] == [d, b, c];
    GroupingByWordStep([d, b], c, g);
  }

  lemma {:induction false} SampleGroups4(d: string, b: string, c: string)
    requires d != b && d != c && b != c
    ensures GroupingBy([d, b, c, c], Word) == [Group(d, [d]), Group(b, [b]), Group(c, [c, c])]
  {
    var g := [Group(d, [d]), Group(b, [b]), Group(c, [c])];
    AccumulateAt(g, 2, c);
    assert [c] + [c] == [c, c];
    assert Accumulate(g, c, c) == [Group(d, [d]), Group(b, [b]), Group(c, [c, c])];
    SampleGroups3(d, b, c);
    assert [d, b, c] + [c] == [d, b, c, c];
    GroupingByWordStep([d, b, c], c, g);
  }

  lemma {:induction false} SampleGroups5(d: string, b: string, c: string)
    requires d != b && d != c && b != c
    ensures GroupingBy([d, b, c, c, d], Word) == [Group(d, [d, d]), Group(b, [b]), Group(c, [c, c])]
  {
    var g := [Group(d, [d]), Group(b, [b]), Group(c, [c, c])];
    AccumulateAt(g, 0, d);
    assert [d] + [d] == [d, d];
    assert Accumulate(g, d, d) == [Group(d, [d, d]), Group(b, [b]), Group(c, [c, c])];
    SampleGroups4(d, b, c);
    assert [d, b, c, c] + [d] == [d, b, c, c, d];
    GroupingByWordStep([d, b, c, c], d, g);
  }

  lemma {:induction false} SampleGroups6(d: string, b: string, c: string)
    requires d != b && d != c && b != c
    ensures GroupingBy([d, b, c, c, d, c], Word) == [Group(d, [d, d]), Group(b, [b]), Group(c, [c, c, c])]
  {
    var g := [Group(d, [d, d]), Group(b, [b]), Group(c, [c, c])];
    AccumulateAt(g, 2, c);
    assert [c, c] + [c] == [c, c, c];
    assert Accumulate(g, c, c) == [Group(d, [d, d]), Group(b, [b]), Group(c, [c, c, c])];
    SampleGroups5(d, b, c);
    assert [d, b, c, c, d] + [c] == [d, b, c, c, d, c];
    GroupingByWordStep([d, b, c, c, d], c, g);
  }

  lemma SampleCompare()
    ensures CompareTo("bird - 1", "cat - 3") < 0
    ensures CompareTo("dog - 2", "bird - 1") > 0
    ensures CompareTo("dog - 2", "cat - 3") > 0
  {
    assert "bird - 1"[0] == 'b' && "cat - 3"[0] == 'c' && "dog - 2"[0] == 'd';
  }

  /** Sorting whole lines is not sorting tokens: "a" is a prefix of "a\tb",
      yet its line comes after, because a tab is below the space of " - ". */
  lemma LineOrderDiffers()
    ensures CompareTo("a", "a\tb") < 0
    ensures CompareTo("a - 1", "a\tb - 1") > 0
  {
    assert "a"[1..] == [] && "a\tb"[1..] == "\tb";
    assert "a - 1"[0] == "a\tb - 1"[0];
    assert "a - 1"[1..] == " - 1" && "a\tb - 1"[1..] == "\tb - 1";
  }

  lemma SampleSort()
    ensures Sort(["dog - 2", "bird - 1", "cat - 3"], CompareTo) == ["bird - 1", "cat - 3", "dog - 2"]
  {
    SampleCompare();
    var lines := ["dog - 2", "bird - 1", "cat - 3"];
    assert lines[1..][1..] == ["cat - 3"];
    assert Sort(lines[1..][1..], CompareTo) == ["cat - 3"];
    assert Sort(lines[1..], CompareTo) == ["bird - 1", "cat - 3"];
  }

  lemma SampleLines()
    ensures FrequencyLines([Group("dog", ["dog", "dog"]), Group("bird", ["bird"]), Group("cat", ["cat", "cat", "cat"])])
         == ["dog - 2", "bird - 1", "cat - 3"]
  {
    assert NatToString(1) == "1" && NatToString(2) == "2" && NatToString(3) == "3";
    assert FrequencyLine(Group("dog", ["dog", "dog"])) == "dog - 2";
    assert FrequencyLine(Group("bird", ["bird"])) == "bird - 1";
    assert FrequencyLine(Group("cat", ["cat", "cat", "cat"])) == "cat - 3";
  }

  /** The text of the exercise yields "bird - 1", "cat - 3", "dog - 2". */
  lemma WordFrequenciesExample()
    ensures WordFrequencies(SAMPLE_TEXT) == ["bird - 1", "cat - 3", "dog - 2"]
  {
    SampleTokens();
    assert "dog"[0] == 'd' && "bird"[0] == 'b' && "cat"[0] == 'c';
    SampleGroups6("dog", "bird", "cat");
    SampleLines();
    SampleSort();
  }

  // ---------------------------------------------------------------------------
  // Exercise 6: the sum of the values of all squares of a chess board.

  function AsInt(x: int32): int {
    x
  }

  function AsLong(x: int64): int {
    x
  }

  /** IntStream.reduce(0, (a, b) -> a + b): a left fold in `int` arithmetic. */
  function IntStreamSum(xs: seq<int32>): (total: int32)
    ensures total == WrapInt(SumOf(xs, AsInt))
  {
    if xs == [] then 0
    else
      var init := xs[..|xs| - 1];
      WrapIntAdd(SumOf(init, AsInt), xs[|xs| - 1]);
      WrapInt(IntStreamSum(init) + xs[|xs| - 1])
  }

  /** LongStream.sum: a left fold in `long` arithmetic. */
  function LongStreamSum(xs: seq<int64>): (total: int64)
    ensures total == WrapLong(SumOf(xs, AsLong))
  {
    if xs == [] then 0
    else
      var init := xs[..|xs| - 1];
      WrapLongAdd(SumOf(init, AsLong), xs[|xs| - 1]);
      WrapLong(LongStreamSum(init) + xs[|xs| - 1])
  }

  /** number -> number * columnSum: an `int` product, then widened to `long`. */
  function RowValues(rows: seq<int32>, columnSum: int32): (vs: seq<int64>)
    ensures |vs| == |rows|
    ensures forall i :: 0 <= i < |rows| ==> vs[i] == WrapInt(rows[i] * columnSum)
  {
    seq(|rows|, i requires 0 <= i < |rows| => WrapInt(rows[i] * columnSum) as int64)
  }

  /** Exercise 6: each row number times the sum of the column numbers, the
      products added up as longs. */
  function ChessBoardSum(rows: seq<int32>, columns: seq<int32>): (r: int64)
    ensures BoardFits(rows, columns) ==> r == BoardTotal(rows, columns)
  {
    RowSumsExactWhenFit(rows, columns);
    LongStreamSum(RowValues(rows, IntStreamSum(columns)))
  }

  /** The column sum and each row's product fit in an `int`, and the board
      total fits in a `long`. */
  ghost predicate BoardFits(rows: seq<int32>, columns: seq<int32>) {
    && IsInt(SumOf(columns, AsInt))
    && (forall i :: 0 <= i < |rows| ==> IsInt(rows[i] * SumOf(columns, AsInt)))
    && IsLong(BoardTotal(rows, columns))
  }

  /** The value of every square of one row: row number times column number. */
  ghost function RowSquares(row: int, columns: seq<int32>): int {
    if columns == [] then 0
    else RowSquares(row, columns[..|columns| - 1]) + row * columns[|columns| - 1]
  }

  /** The values of all squares of the board added up exactly. */
  ghost function BoardTotal(rows: seq<int32>, columns: seq<int32>): int {
    if rows == [] then 0
    else BoardTotal(rows[..|rows| - 1], columns) + RowSquares(rows[|rows| - 1], columns)
  }

  lemma {:induction false} RowSquaresFactor(row: int, columns: seq<int32>)
    ensures RowSquares(row, columns) == row * SumOf(columns, AsInt)
  {
    if columns != [] {
      RowSquaresFactor(row, columns[..|columns| - 1]);
    }
  }

  lemma {:induction false} RowSumsExactWhenFit(rows: seq<int32>, columns: seq<int32>)
    ensures BoardFits(rows, columns) ==>
              WrapLong(SumOf(RowValues(rows, IntStreamSum(columns)), AsLong)) == BoardTotal(rows, columns)
  {
    if BoardFits(rows, columns) {
      RowSumsExact(rows, columns);
    }
  }

  lemma {:induction false} RowSumsExact(rows: seq<int32>, columns: seq<int32>)
    requires IsInt(SumOf(columns, AsInt))
    requires forall i :: 0 <= i < |rows| ==> IsInt(rows[i] * SumOf(columns, AsInt))
    ensures SumOf(RowValues(rows, IntStreamSum(columns)), AsLong) == BoardTotal(rows, columns)
  {
    if rows != [] {
      var init := rows[..|rows| - 1];
      var vs := RowValues(rows, IntStreamSum(columns));
      assert vs[..|vs| - 1] == RowValues(init, IntStreamSum(columns));
      RowSumsExact(init, columns);
      RowSquaresFactor(rows[|rows| - 1], columns);
    }
  }

  const BOARD_ROWS: seq<int32> := [6432, 8997, 8500, 7036, 9395, 9372, 9715, 9634]
  const BOARD_COLUMNS: seq<int32> := [6199, 9519, 6745, 8864, 8788, 7322, 7341, 7395]

  /** The board of the exercise: 69081 * 62173 = 4294973013. The value
      exceeds the `int` range, whose wrap-around would have given 5717. */
  lemma ChessBoardExample()
    ensures ChessBoardSum(BOARD_ROWS, BOARD_COLUMNS) == 4294973013
    ensures WrapInt(4294973013) == 5717
  {
    ColumnSum();
    RowSum();
    assert BoardTotal(BOARD_ROWS, BOARD_COLUMNS) == 4294973013 by {
      BoardFactor(BOARD_ROWS, BOARD_COLUMNS);
    }
    assert BoardFits(BOARD_ROWS, BOARD_COLUMNS);
    assert 4294973013 - 5717 == 2 * INT_HALF;
  }

  lemma ColumnSum()
    ensures SumOf(BOARD_COLUMNS, AsInt) == 62173
  {
    assert SumOf(BOARD_COLUMNS[..1], AsInt) == 6199;
    assert BOARD_COLUMNS[..2][..1] == BOARD_COLUMNS[..1];
    assert SumOf(BOARD_COLUMNS[..2], AsInt) == 15718;
    assert BOARD_COLUMNS[..3][..2] == BOARD_COLUMNS[..2];
    assert SumOf(BOARD_COLUMNS[..3], AsInt) == 22463;
    assert BOARD_COLUMNS[..4][..3] == BOARD_COLUMNS[..3];
    assert SumOf(BOARD_COLUMNS[..4], AsInt) == 31327;
    assert BOARD_COLUMNS[..5][..4] == BOARD_COLUMNS[..4];
    assert SumOf(BOARD_COLUMNS[..5], AsInt) == 40115;
    assert BOARD_COLUMNS[..6][..5] == BOARD_COLUMNS[..5];
    assert SumOf(BOARD_COLUMNS[..6], AsInt) == 47437;
    assert BOARD_COLUMNS[..7][..6] == BOARD_COLUMNS[..6];
    assert SumOf(BOARD_COLUMNS[..7], AsInt) == 54778;
    assert BOARD_COLUMNS[..8][..7] == BOARD_COLUMNS[..7];
    assert SumOf(BOARD_COLUMNS[..8], AsInt) == 62173;
    assert BOARD_COLUMNS[..8] == BOARD_COLUMNS;
  }

  lemma RowSum()
    ensures SumOf(BOARD_ROWS, AsInt) == 69081
  {
    assert SumOf(BOARD_ROWS[..1], AsInt) == 6432;
    assert BOARD_ROWS[..2][..1] == BOARD_ROWS[..1];
    assert SumOf(BOARD_ROWS[..2], AsInt) == 15429;
    assert BOARD_ROWS[..3][..2] == BOARD_ROWS[..2];
    assert SumOf(BOARD_ROWS[..3], AsInt) == 23929;
    assert BOARD_ROWS[..4][..3] == BOARD_ROWS[..3];
    assert SumOf(BOARD_ROWS[..4], AsInt) == 30965;
    assert BOARD_ROWS[..5][..4] == BOARD_ROWS[..4];
    assert SumOf(BOARD_ROWS[..5], AsInt) == 40360;
    assert BOARD_ROWS[..6][..5] == BOARD_ROWS[..5];
    assert SumOf(BOARD_ROWS[..6], AsInt) == 49732;
    assert BOARD_ROWS[..7][..6] == BOARD_ROWS[..6];
    assert SumOf(BOARD_ROWS[..7], AsInt) == 59447;
    assert BOARD_ROWS[..8][..7] == BOARD_ROWS[..7];
    assert SumOf(BOARD_ROWS[..8], AsInt) == 69081;
    assert BOARD_ROWS[..8] == BOARD_ROWS;
  }

  lemma {:induction false} BoardFactor(rows: seq<int32>, columns: seq<int32>)
    ensures BoardTotal(rows, columns) == SumOf(rows, AsInt) * SumOf(columns, AsInt)
  {
    if rows != [] {
      BoardFactor(rows[..|rows| - 1], columns);
      RowSquaresFactor(rows[|rows| - 1], columns);
    }
  }
}
