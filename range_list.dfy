/** `expand_range_list`: the kernel's CPU list format ("5,1-3") expanded to
    the listed numbers, in the order written. */
module RangeList {
  import opened Base
  import opened Strings

  /** `range(lo, hi + 1)`: lo, lo + 1, ..., hi, and nothing when lo > hi. */
  function Range(lo: int, hi: int): seq<int>
    decreases hi - lo
  {
    if lo > hi then [] else Range(lo, hi - 1) + [hi]
  }

  /** `int(text)`, failing with ValueError on anything but a decimal numeral. */
  function ParseInt(text: string): Result<int>
  {
    match ParseNat(text)
    case Some(n) => Ok(n)
    case None => Err(InvalidLiteral(text))
  }

  /** The first failure of two steps run in order, or both outputs joined. */
  function Combine(a: Result<seq<int>>, b: Result<seq<int>>): Result<seq<int>>
  {
    if a.Err? then a else if b.Err? then b else Ok(a.value + b.value)
  }

  /** What one comma-separated member contributes: a number, an inclusive
      range, or nothing at all when it holds two or more hyphens. */
  function Member(member: string): Result<seq<int>>
  {
    var edges := Split(member, '-');
    if |edges| == 1 then
      match ParseInt(edges[0])
      case Err(e) => Err(e)
      case Ok(item) => Ok([item])
    else if |edges| == 2 then
      match ParseInt(edges[0])
      case Err(e) => Err(e)
      case Ok(left) =>
        match ParseInt(edges[1])
        case Err(e) => Err(e)
        case Ok(right) => Ok(Range(left, right))
    else
      Ok([])
  }

  /** The members expanded from left to right, stopping at the first failure. */
  function Members(members: seq<string>): Result<seq<int>>
  {
    if members == [] then Ok([])
    else Combine(Members(members[..|members| - 1]), Member(members[|members| - 1]))
  }

  /** Reference meaning of `expand_range_list(text)`. */
  function Expansion(text: string): Result<seq<int>>
  {
    if text == [] then Ok([]) else Members(Split(text, ','))
  }

  /** The loops of `expand_range_list`, appending to `expanded`. */
  method ExpandRangeList(text: string) returns (r: Result<seq<int>>)
    ensures r == Expansion(text)
  {
    if text == [] {
      return Ok([]);
    }
    var members := Split(text, ',');
    var expanded: seq<int> := [];
    var i := 0;
    while i < |members|
      invariant 0 <= i <= |members|
      invariant Members(members[..i]) == Ok(expanded)
    {
      MembersLast(members, i);
      ghost var before := expanded;
      var edges := Split(members[i], '-');
      if |edges| == 1 {
        var item := ParseInt(edges[0]);
        if item.Err? {
          MembersFailFast(members, i + 1);
          return Err(item.error);
        }
        expanded := expanded + [item.value];
      }
      if |edges| == 2 {
        var left := ParseInt(edges[0]);
        if left.Err? {
          MembersFailFast(members, i + 1);
          return Err(left.error);
        }
        var right := ParseInt(edges[1]);
        if right.Err? {
          MembersFailFast(members, i + 1);
          return Err(right.error);
        }
        expanded := AppendRange(expanded, left.value, right.value);
      }
      assert expanded == before + Member(members[i]).value;
      i := i + 1;
    }
    assert members[..i] == members;
    return Ok(expanded);
  }

  /** `for item in range(lo, hi + 1): expanded.append(item)`. */
  method AppendRange(expanded: seq<int>, lo: int, hi: int) returns (r: seq<int>)
    ensures r == expanded + Range(lo, hi)
  {
    r := expanded;
    var item := lo;
    while item <= hi
      invariant lo <= item
      invariant item <= hi + 1 || item == lo
      invariant r == expanded + Range(lo, item - 1)
    {
      r := r + [item];
      item := item + 1;
    }
    assert Range(lo, item - 1) == Range(lo, hi);
  }

  /** The expansion of the first `i + 1` members extends that of the first `i`
      by member `i`. */
  lemma MembersLast(members: seq<string>, i: nat)
    requires i < |members|
    ensures Members(members[..i + 1]) == Combine(Members(members[..i]), Member(members[i]))
  {
    assert members[..i + 1][..i] == members[..i];
  }

  /** Once a member fails, the whole expansion fails with its error. */
  lemma {:induction false} MembersFailFast(members: seq<string>, k: nat)
    requires k <= |members| && Members(members[..k]).Err?
    ensures Members(members) == Members(members[..k])
  {
    assert members == members[..k] + members[k..];
    MembersAppend(members[..k], members[k..]);
  }

  /** Expanding a list of members is expanding its two halves in order. */
  lemma {:induction false} MembersAppend(a: seq<string>, b: seq<string>)
    ensures Members(a + b) == Combine(Members(a), Members(b))
    decreases |b|
  {
    if b == [] {
      assert a + b == a;
      if Members(a).Ok? {
        assert Members(a).value + [] == Members(a).value;
      }
    } else {
      var b' := b[..|b| - 1];
      assert (a + b)[..|a + b| - 1] == a + b';
      assert (a + b)[|a + b| - 1] == b[|b| - 1];
      MembersAppend(a, b');
      assert Members(a + b) == Combine(Members(a + b'), Member(b[|b| - 1]));
      assert Members(b) == Combine(Members(b'), Member(b[|b| - 1]));
      CombineAssociative(Members(a), Members(b'), Member(b[|b| - 1]));
    }
  }

  lemma CombineAssociative(x: Result<seq<int>>, y: Result<seq<int>>, z: Result<seq<int>>)
    ensures Combine(Combine(x, y), z) == Combine(x, Combine(y, z))
  {
    if x.Ok? && y.Ok? && z.Ok? {
      assert x.value + y.value + z.value == x.value + (y.value + z.value);
    }
  }

  /** `range(lo, hi + 1)` holds exactly lo, ..., hi, ascending. */
  lemma {:induction false} RangeExact(lo: int, hi: int)
    ensures |Range(lo, hi)| == if lo <= hi then hi - lo + 1 else 0
    ensures forall i :: 0 <= i < |Range(lo, hi)| ==> Range(lo, hi)[i] == lo + i
    decreases hi - lo
  {
    if lo <= hi {
      RangeExact(lo, hi - 1);
    }
  }

  /** A member that is a numeral contributes that number. */
  lemma MemberNumber(n: nat)
    ensures Member(NatToString(n)) == Ok([n])
  {
    NatToStringDigits(n);
    SplitNone(NatToString(n), '-');
    ParseNatToString(n);
  }

  /** A member "lo-hi" contributes the range lo..hi (empty when lo > hi). */
  lemma MemberRange(lo: nat, hi: nat)
    ensures Member(NatToString(lo) + "-" + NatToString(hi)) == Ok(Range(lo, hi))
  {
    var a, b := NatToString(lo), NatToString(hi);
    NatToStringDigits(lo);
    NatToStringDigits(hi);
    SplitAround(a, '-', b);
    SplitNone(a, '-');
    SplitNone(b, '-');
    ParseNatToString(lo);
    ParseNatToString(hi);
  }

  /** Any numeral, leading zeros included, is a member naming its value. */
  lemma MemberNumeral(m: string)
    requires m != [] && AllDigits(m)
    ensures Member(m) == Ok([DigitsValue(m)])
  {
    SplitNone(m, '-');
  }

  /** Two numerals around a hyphen name the range between their values. */
  lemma MemberNumeralRange(a: string, b: string)
    requires a != [] && AllDigits(a) && b != [] && AllDigits(b)
    ensures Member(a + "-" + b) == Ok(Range(DigitsValue(a), DigitsValue(b)))
  {
    SplitAround(a, '-', b);
    SplitNone(a, '-');
    SplitNone(b, '-');
  }

  /** A member without a hyphen that is not a numeral (empty, signed,
      spaced or otherwise) is a ValueError naming it. */
  lemma MemberNotNumeral(m: string)
    requires '-' !in m && !(m != [] && AllDigits(m))
    ensures Member(m) == Err(InvalidLiteral(m))
  {
    SplitNone(m, '-');
  }

  /** A member with two or more hyphens contributes nothing and never fails. */
  lemma MemberManyHyphens(member: string)
    requires Count(member, '-') >= 2
    ensures Member(member) == Ok([])
  {
  }

  /** Members are expanded left to right: the expansion of "s,t" is the
      expansion of s followed by that of t, and fails where s or t does. */
  lemma ExpansionJoin(s: string, t: string)
    requires s != [] && t != []
    ensures Expansion(s + "," + t) == Combine(Expansion(s), Expansion(t))
  {
    SplitAround(s, ',', t);
    MembersAppend(Split(s, ','), Split(t, ','));
  }

  /** A text without commas is a single member. */
  lemma ExpansionOneMember(member: string)
    requires member != [] && ',' !in member
    ensures Expansion(member) == Member(member)
  {
    SplitNone(member, ',');
    assert [member][..0] == [];
    var m := Member(member);
    assert Members([member]) == Combine(Members([]), m);
    if m.Ok? {
      assert [] + m.value == m.value;
    }
  }

  /** `expand_range_list("5,1-3") == [5, 1, 2, 3]`. */
  lemma ExampleMixed()
    ensures Expansion("5,1-3") == Ok([5, 1, 2, 3])
  {
    ExampleFive();
    ExampleOneToThree();
    assert "5" + "," + "1-3" == "5,1-3";
    ExpansionJoin("5", "1-3");
    assert [5] + [1, 2, 3] == [5, 1, 2, 3];
  }

  lemma ExampleFive()
    ensures Expansion("5") == Ok([5])
  {
    MemberNumber(5);
    assert NatToString(5) == "5";
    ExpansionOneMember("5");
  }

  lemma ExampleOneToThree()
    ensures Expansion("1-3") == Ok([1, 2, 3])
  {
    MemberRange(1, 3);
    assert NatToString(1) + "-" + NatToString(3) == "1-3";
    ExpansionOneMember("1-3");
    assert Range(1, 3) == [1, 2, 3];
  }

  /** `expand_range_list("4") == [4]` and `expand_range_list("") == []`. */
  lemma ExampleSingleAndEmpty()
    ensures Expansion("4") == Ok([4])
    ensures Expansion("") == Ok([])
  {
    MemberNumber(4);
    assert NatToString(4) == "4";
    ExpansionOneMember("4");
  }
}
