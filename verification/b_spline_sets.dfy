/** A set of B-splines: the members' coefficients laid end to end in one flat buffer, with a
    registry of the members' function spaces by name. */
module BSplineSets {
  import opened Wrappers
  import opened Errors
  import opened NdArrays
  import opened BSplines

  /** A value of the input dictionary: a B-spline, or a string passed by mistake. */
  datatype Member = Spline(b: BSpline) | Text(s: string)

  /** The set as built: its space registry, the member-to-space names, the flat coefficient
      buffer and the physical dimension of each member by dictionary key. */
  datatype BSplineSet = BSplineSet(
    name: string,
    spaces: map<string, Space>,
    splineToSpace: map<string, string>,
    coefficients: seq<real>,
    numPhysicalDimensions: map<string, nat>)

  /** A B-spline as its constructor leaves it: constructing it again changes nothing. */
  predicate Constructed(b: BSpline)
  {
    NewBSpline(b.name, b.space, b.coefficients, b.numPhysicalDimensions) == Ok(b)
  }

  /** `num_coefficients`, a length. Every constructed spline's count is one (`ConstructedCount`);
      the clamp at zero only concerns splines no constructor produces. */
  function Count(b: BSpline): (n: nat)
  {
    var c := NumCoefficients(b.space, b.numPhysicalDimensions);
    if c < 0 then 0 else c
  }

  lemma ConstructedCount(b: BSpline)
    requires Constructed(b)
    ensures Count(b) == NumCoefficients(b.space, b.numPhysicalDimensions)
  {
  }

  predicate AllSplines(members: seq<(string, Member)>)
  {
    forall i :: 0 <= i < |members| ==> members[i].1.Spline?
  }

  function Splines(members: seq<(string, Member)>): (bs: seq<BSpline>)
    requires AllSplines(members)
    ensures |bs| == |members| && forall i :: 0 <= i < |members| ==> bs[i] == members[i].1.b
  {
    seq(|members|, i requires 0 <= i < |members| => members[i].1.b)
  }

  /** The members' coefficient counts added up. */
  function Total(bs: seq<BSpline>): nat
  {
    if |bs| == 0 then 0 else Total(bs[..|bs| - 1]) + Count(bs[|bs| - 1])
  }

  /** Drop the leading axes of length one, as numpy does when it broadcasts into fewer axes. */
  function StripLeadingOnes(s: seq<nat>): (r: seq<nat>)
    ensures |r| <= |s| && (|r| > 0 ==> r[0] != 1)
  {
    if |s| > 0 && s[0] == 1 then StripLeadingOnes(s[1..]) else s
  }

  lemma {:induction false} StripLeadingOnesProd(s: seq<nat>)
    ensures Prod(StripLeadingOnes(s)) == Prod(s)
  {
    if |s| > 0 && s[0] == 1 {
      StripLeadingOnesProd(s[1..]);
    }
  }

  /** `buffer[off:off + n] = a`: an array whose axes, leading ones dropped, are none (one value,
      written everywhere) or exactly `n` fills the block; any other array raises. */
  function BroadcastInto(a: NdArray, n: nat): (r: Result<seq<real>, Error>)
    ensures r.Ok? <==> StripLeadingOnes(a.shape) == [] || StripLeadingOnes(a.shape) == [n]
    ensures r.Ok? ==> |r.value| == n
    ensures r.Err? ==> r.error == BroadcastFailure
    ensures StripLeadingOnes(a.shape) == [n] ==> r == Ok(a.data)
  {
    StripLeadingOnesProd(a.shape);
    var s := StripLeadingOnes(a.shape);
    if s == [] then Ok(Repeat(a.data[0], n))
    else if s == [n] then
      ProdOne(n);
      Ok(a.data)
    else Err(BroadcastFailure)
  }

  /** An array of a single value, leading unit axes aside, writes that value everywhere. */
  lemma BroadcastScalar(a: NdArray, n: nat)
    requires StripLeadingOnes(a.shape) == []
    ensures |a.data| == 1 && BroadcastInto(a, n) == Ok(Repeat(a.data[0], n))
  {
    StripLeadingOnesProd(a.shape);
  }

  /** A well-formed spline's coefficients fill their block unchanged. */
  lemma BroadcastWellFormed(b: BSpline)
    requires WellFormed(b)
    ensures Block(b) == Ok(b.coefficients.data)
  {
    var n := Count(b);
    if n == 1 {
      ProdOne(1);
      assert b.coefficients.data == Repeat(b.coefficients.data[0], 1);
    } else {
      assert b.coefficients.shape[1..] == [];
    }
  }

  /** What a member writes into its block of the buffer. */
  function Block(b: BSpline): Result<seq<real>, Error>
  {
    BroadcastInto(b.coefficients, Count(b))
  }

  /** The buffer: each member's block after the blocks of the members before it. */
  function Assemble(bs: seq<BSpline>): (r: Result<seq<real>, Error>)
    ensures r.Ok? <==> forall i {:trigger Block(bs[i])} :: 0 <= i < |bs| ==> Block(bs[i]).Ok?
    ensures r.Ok? ==> |r.value| == Total(bs)
    ensures r.Err? ==> r.error == BroadcastFailure
  {
    if |bs| == 0 then Ok([])
    else
      var init, last := bs[..|bs| - 1], bs[|bs| - 1];
      var head :- Assemble(init);
      var block :- Block(last);
      Ok(head + block)
  }

  /** Member `i`'s block starts at the total of the members before it and holds what its
      coefficients broadcast to. */
  lemma {:induction false} AssembleBlock(bs: seq<BSpline>, i: nat)
    requires Assemble(bs).Ok? && i < |bs|
    ensures Total(bs[..i]) + Count(bs[i]) <= Total(bs)
    ensures Assemble(bs).value[Total(bs[..i])..Total(bs[..i]) + Count(bs[i])]
            == Block(bs[i]).value
  {
    if i == |bs| - 1 {
      AssembleLastBlock(bs);
    } else {
      AssembleBlock(bs[..|bs| - 1], i);
      AssembleEarlierBlock(bs, i);
    }
  }

  /** The last member's block closes the buffer. */
  lemma AssembleLastBlock(bs: seq<BSpline>)
    requires Assemble(bs).Ok? && |bs| > 0
    ensures var i := |bs| - 1;
      Total(bs[..i]) + Count(bs[i]) <= Total(bs)
      && Assemble(bs).value[Total(bs[..i])..Total(bs[..i]) + Count(bs[i])]
         == Block(bs[i]).value
  {
    var init, last := bs[..|bs| - 1], bs[|bs| - 1];
    var head, block := Assemble(init).value, Block(last).value;
    assert Assemble(bs).value == head + block;
    assert bs[..|bs| - 1] == init;
    SliceOfConcat(head, block, |head|, |head| + |block|);
  }

  /** A block that lies in the buffer of the members before the last stays where it is. */
  lemma AssembleEarlierBlock(bs: seq<BSpline>, i: nat)
    requires Assemble(bs).Ok? && i < |bs| - 1
    requires var init := bs[..|bs| - 1];
      Assemble(init).Ok?
      && Total(init[..i]) + Count(init[i]) <= Total(init)
      && Assemble(init).value[Total(init[..i])..Total(init[..i]) + Count(init[i])]
         == Block(init[i]).value
    ensures Total(bs[..i]) + Count(bs[i]) <= Total(bs)
    ensures Assemble(bs).value[Total(bs[..i])..Total(bs[..i]) + Count(bs[i])]
            == Block(bs[i]).value
  {
    var init, last := bs[..|bs| - 1], bs[|bs| - 1];
    assert init[..i] == bs[..i] && init[i] == bs[i];
    var head, block := Assemble(init).value, Block(last).value;
    assert Assemble(bs).value == head + block;
    SliceOfConcat(head, block, Total(bs[..i]), Total(bs[..i]) + Count(bs[i]));
  }

  /** A slice of `a + b` lying within `a` is a slice of `a`; the slice covering exactly `b` is `b`. */
  lemma SliceOfConcat(a: seq<real>, b: seq<real>, lo: nat, hi: nat)
    requires lo <= hi <= |a| || (lo == |a| && hi == |a| + |b|)
    ensures hi <= |a| ==> (a + b)[lo..hi] == a[lo..hi]
    ensures lo == |a| && hi == |a| + |b| ==> (a + b)[lo..hi] == b
  {
    if hi <= |a| {
      assert forall k :: 0 <= k < hi - lo ==> (a + b)[lo..hi][k] == a[lo..hi][k];
    } else {
      assert forall k :: 0 <= k < |b| ==> (a + b)[lo..hi][k] == b[k];
    }
  }

  /** The space registry: each member's space under its space name, a later member's space
      replacing an earlier one of the same name. */
  function Spaces(bs: seq<BSpline>): (r: map<string, Space>)
    ensures r.Keys == set i | 0 <= i < |bs| :: bs[i].space.name
  {
    if |bs| == 0 then map[]
    else
      var init := bs[..|bs| - 1];
      assert (set i | 0 <= i < |bs| :: bs[i].space.name)
          == (set i | 0 <= i < |init| :: init[i].space.name) + {bs[|bs| - 1].space.name};
      Spaces(init)[bs[|bs| - 1].space.name := bs[|bs| - 1].space]
  }

  /** A name is held by the space of the last member whose space carries it. */
  lemma {:induction false} SpacesLastWins(bs: seq<BSpline>, i: nat)
    requires i < |bs|
    requires forall j :: i < j < |bs| ==> bs[j].space.name != bs[i].space.name
    ensures Spaces(bs)[bs[i].space.name] == bs[i].space
  {
    if i < |bs| - 1 {
      var init := bs[..|bs| - 1];
      assert init[i] == bs[i];
      SpacesLastWins(init, i);
    }
  }

  /** Each member's name mapped to its space's name, later members winning. */
  function SplineToSpace(bs: seq<BSpline>): (r: map<string, string>)
    ensures r.Keys == set i | 0 <= i < |bs| :: bs[i].name
  {
    if |bs| == 0 then map[]
    else
      var init := bs[..|bs| - 1];
      assert (set i | 0 <= i < |bs| :: bs[i].name)
          == (set i | 0 <= i < |init| :: init[i].name) + {bs[|bs| - 1].name};
      SplineToSpace(init)[bs[|bs| - 1].name := bs[|bs| - 1].space.name]
  }

  lemma {:induction false} SplineToSpaceLastWins(bs: seq<BSpline>, i: nat)
    requires i < |bs|
    requires forall j :: i < j < |bs| ==> bs[j].name != bs[i].name
    ensures SplineToSpace(bs)[bs[i].name] == bs[i].space.name
  {
    if i < |bs| - 1 {
      var init := bs[..|bs| - 1];
      assert init[i] == bs[i];
      SplineToSpaceLastWins(init, i);
    }
  }

  /** Each dictionary key mapped to its member's physical dimension. */
  function PhysicalDimensions(members: seq<(string, Member)>): (r: map<string, nat>)
    requires AllSplines(members)
    ensures r.Keys == set i | 0 <= i < |members| :: members[i].0
  {
    if |members| == 0 then map[]
    else
      var init, last := members[..|members| - 1], members[|members| - 1];
      assert (set i | 0 <= i < |members| :: members[i].0)
          == (set i | 0 <= i < |init| :: init[i].0) + {last.0};
      PhysicalDimensions(init)[last.0 := last.1.b.numPhysicalDimensions]
  }

  /** A key holds the physical dimension of the last member under it; the keys of a dictionary
      are distinct, so every member's own. */
  lemma {:induction false} PhysicalDimensionsLastWins(members: seq<(string, Member)>, i: nat)
    requires AllSplines(members) && i < |members|
    requires forall j :: i < j < |members| ==> members[j].0 != members[i].0
    ensures PhysicalDimensions(members)[members[i].0] == members[i].1.b.numPhysicalDimensions
  {
    if i < |members| - 1 {
      var init := members[..|members| - 1];
      assert init[i] == members[i];
      PhysicalDimensionsLastWins(init, i);
    }
  }

  /** `create_b_spline_set`. Reading the coefficient count of a string raises before the check
      meant for strings is reached; a member whose coefficients do not fit its block raises. */
  function CreateBSplineSet(name: string, members: seq<(string, Member)>): (r: Result<BSplineSet, Error>)
    ensures !AllSplines(members) ==> r == Err(MissingAttribute("num_coefficients"))
    ensures r.Ok? <==> AllSplines(members) && Assemble(Splines(members)).Ok?
    ensures r.Ok? ==>
      r.value.name == name
      && |r.value.coefficients| == Total(Splines(members))
      && r.value.spaces == Spaces(Splines(members))
      && r.value.splineToSpace == SplineToSpace(Splines(members))
      && r.value.numPhysicalDimensions == PhysicalDimensions(members)
  {
    if !AllSplines(members) then Err(MissingAttribute("num_coefficients"))
    else
      var bs := Splines(members);
      var coefficients :- Assemble(bs);
      Ok(BSplineSet(name, Spaces(bs), SplineToSpace(bs), coefficients, PhysicalDimensions(members)))
  }

  /** The check for string members can never fire. */
  lemma StringMembersUnreachable(name: string, members: seq<(string, Member)>)
    ensures CreateBSplineSet(name, members) != Err(StringMembers)
  {
    if AllSplines(members) {
      var a := Assemble(Splines(members));
      assert a.Err? ==> a.error == BroadcastFailure;
    }
  }

  /** Members with flat coefficient vectors always form a set, and each member's coefficients
      sit unchanged at the offset given by the counts of the members before it. */
  lemma CreateBSplineSetLayout(name: string, members: seq<(string, Member)>, i: nat)
    requires AllSplines(members) && i < |members|
    requires forall j :: 0 <= j < |members| ==> WellFormed(members[j].1.b)
    ensures CreateBSplineSet(name, members).Ok?
    ensures var bs := Splines(members);
      var off := Total(bs[..i]);
      var c := CreateBSplineSet(name, members).value.coefficients;
      off + Count(bs[i]) <= |c| && c[off..off + Count(bs[i])] == members[i].1.b.coefficients.data
  {
    var bs := Splines(members);
    AssembleWellFormed(bs);
    AssembleBlock(bs, i);
    BroadcastWellFormed(bs[i]);
  }

  /** Members with flat coefficient vectors always fill the buffer. */
  lemma AssembleWellFormed(bs: seq<BSpline>)
    requires forall j :: 0 <= j < |bs| ==> WellFormed(bs[j])
    ensures Assemble(bs).Ok?
  {
    forall j | 0 <= j < |bs|
      ensures Block(bs[j]).Ok?
    {
      BroadcastWellFormed(bs[j]);
    }
  }
}
