/** The function spaces read from STEP files (ISO 10303-21 exchange files holding the
    B_SPLINE_SURFACE_WITH_KNOTS entity of ISO 10303-42): distinct knots repeated by their
    multiplicities and scaled by the last knot, orders one more than the degrees, and coefficient
    counts the knot counts less the orders. */
module StepImport {
  import opened Wrappers
  import opened Errors
  import opened NdArrays
  import opened EvaluationMaps
  import opened BSplines

  /** The fields of a B_SPLINE_SURFACE_WITH_KNOTS entity that the spaces are built from. */
  datatype StepSurface = StepSurface(
    degreeU: nat, degreeV: nat,
    multiplicitiesU: seq<nat>, multiplicitiesV: seq<nat>,
    knotsU: seq<real>, knotsV: seq<real>)

  function Sum(s: seq<nat>): nat
  {
    if |s| == 0 then 0 else s[0] + Sum(s[1..])
  }

  /** The multiplicities broadcast against `n` distinct knots: one per knot, or a single one used
      for every knot; any other count raises. */
  function BroadcastMultiplicities(m: seq<nat>, n: nat): (r: Result<seq<nat>, Error>)
    ensures r.Ok? <==> |m| == n || |m| == 1
    ensures r.Ok? ==> |r.value| == n
    ensures r.Ok? && |m| == n ==> r.value == m
    ensures r.Ok? && |m| != n ==> forall i :: 0 <= i < n ==> r.value[i] == m[0]
  {
    if |m| == n then Ok(m)
    else if |m| == 1 then Ok(Repeat(m[0], n))
    else Err(BroadcastFailure)
  }

  /** Each knot repeated by its multiplicity, in order. */
  function RepeatEach(k: seq<real>, m: seq<nat>): (r: seq<real>)
    requires |k| == |m|
    ensures |r| == Sum(m)
  {
    if |k| == 0 then [] else Repeat(k[0], m[0]) + RepeatEach(k[1..], m[1..])
  }

  /** Knot `i` fills the `m[i]` positions that start after the multiplicities of the knots before it. */
  lemma {:induction false} RepeatEachPlacement(k: seq<real>, m: seq<nat>, i: nat, j: nat)
    requires |k| == |m| && i < |k| && j < m[i]
    ensures Sum(m[..i]) + j < Sum(m)
    ensures RepeatEach(k, m)[Sum(m[..i]) + j] == k[i]
  {
    if i == 0 {
      assert m[..0] == [];
    } else {
      RepeatEachPlacement(k[1..], m[1..], i - 1, j);
      assert m[..i][1..] == m[1..][..i - 1];
      assert m[..i][0] == m[0];
    }
  }

  /** The knot whose block holds position `p` of the repeated vector, and the offset inside it. */
  function Locate(m: seq<nat>, p: nat): (r: (nat, nat))
    requires p < Sum(m)
    ensures r.0 < |m| && r.1 < m[r.0] && p == Sum(m[..r.0]) + r.1
  {
    if p < m[0] then
      assert m[..0] == [];
      (0, p)
    else
      var r := Locate(m[1..], p - m[0]);
      assert m[..r.0 + 1][1..] == m[1..][..r.0];
      (r.0 + 1, r.1)
  }

  /** The block is unique: offset `j` inside knot `q`'s block is located as exactly `(q, j)`. */
  lemma {:induction false} LocateUnique(m: seq<nat>, q: nat, j: nat, p: nat)
    requires q < |m| && j < m[q] && p == Sum(m[..q]) + j
    ensures p < Sum(m) && Locate(m, p) == (q, j)
  {
    if q == 0 {
      assert m[..0] == [];
    } else {
      assert m[..q][1..] == m[1..][..q - 1];
      assert m[..q][0] == m[0];
      LocateUnique(m[1..], q - 1, j, p - m[0]);
    }
  }

  /** Every position of the repeated vector holds the knot whose block contains it. */
  lemma RepeatEachAt(k: seq<real>, m: seq<nat>, p: nat)
    requires |k| == |m| && p < Sum(m)
    ensures RepeatEach(k, m)[p] == k[Locate(m, p).0]
  {
    var r := Locate(m, p);
    RepeatEachPlacement(k, m, r.0, r.1);
  }

  /** `np.repeat(knots, multiplicities)`. */
  function RepeatByMultiplicity(k: seq<real>, m: seq<nat>): (r: Result<seq<real>, Error>)
    ensures r.Ok? <==> |m| == |k| || |m| == 1
    ensures r.Ok? && |m| == |k| ==> r.value == RepeatEach(k, m)
    ensures r.Ok? && |m| == 1 ==> r.value == RepeatEach(k, Repeat(m[0], |k|))
  {
    var mm :- BroadcastMultiplicities(m, |k|);
    Ok(RepeatEach(k, mm))
  }

  /** A single multiplicity repeats every knot that many times, in order: position `p` holds knot
      `p / m[0]`. */
  lemma RepeatUniform(k: seq<real>, m: seq<nat>)
    requires |m| == 1
    ensures RepeatByMultiplicity(k, m).Ok? && |RepeatByMultiplicity(k, m).value| == m[0] * |k|
    ensures RepeatByMultiplicity(k, m).value == RepeatEach(k, Repeat(m[0], |k|))
    ensures m[0] > 0 ==> forall p :: 0 <= p < |RepeatByMultiplicity(k, m).value| ==>
      p / m[0] < |k| && RepeatByMultiplicity(k, m).value[p] == k[p / m[0]]
  {
    var c := m[0];
    var mm := Repeat(c, |k|);
    RepeatUniformLength(mm, c);
    if c > 0 {
      forall p | 0 <= p < Sum(mm)
        ensures p / c < |k| && RepeatEach(k, mm)[p] == k[p / c]
      {
        RepeatUniformAt(k, c, p);
      }
    }
  }

  /** Under a uniform multiplicity `c`, position `p` lies at offset `p % c` of block `p / c`. */
  lemma RepeatUniformAt(k: seq<real>, c: nat, p: nat)
    requires c > 0 && p < c * |k|
    ensures |RepeatEach(k, Repeat(c, |k|))| == c * |k|
    ensures p / c < |k| && RepeatEach(k, Repeat(c, |k|))[p] == k[p / c]
  {
    var mm := Repeat(c, |k|);
    var q, j := p / c, p % c;
    UniformBlockOf(p, c, |k|);
    assert mm[..q] == Repeat(c, q);
    RepeatUniformLength(mm[..q], c);
    RepeatUniformLength(mm, c);
    LocateUnique(mm, q, j, p);
    RepeatEachAt(k, mm, p);
  }

  /** Position `p` of `n` blocks of `c` lies in block `p / c`, at offset `p % c`. */
  lemma UniformBlockOf(p: nat, c: nat, n: nat)
    requires c > 0 && p < c * n
    ensures p / c < n && p == c * (p / c) + p % c && p % c < c
  {
    var q, j := p / c, p % c;
    assert p == q * c + j;
  }

  lemma {:induction false} RepeatUniformLength(m: seq<nat>, c: nat)
    requires forall i :: 0 <= i < |m| ==> m[i] == c
    ensures Sum(m) == c * |m|
  {
    if |m| > 0 {
      RepeatUniformLength(m[1..], c);
    }
  }

  /** `knots / knots[-1]`: an empty vector has no last knot, and a last knot of zero gives
      non-finite values. Scaling back by the last knot restores the input, and the last entry is one. */
  function NormaliseByLast(k: seq<real>): (r: Result<seq<real>, Error>)
    ensures |k| == 0 ==> r == Err(IndexOutOfRange)
    ensures |k| > 0 && k[|k| - 1] == 0.0 ==> r == Err(NonFinite)
    ensures r.Ok? <==> |k| > 0 && k[|k| - 1] != 0.0
    ensures r.Ok? ==> |r.value| == |k| && r.value[|k| - 1] == 1.0
  {
    if |k| == 0 then Err(IndexOutOfRange)
    else
      var last := k[|k| - 1];
      if last == 0.0 then Err(NonFinite)
      else Ok(seq(|k|, i requires 0 <= i < |k| => k[i] / last))
  }

  /** Scaling the normalised vector back by the last knot restores the input. */
  lemma NormaliseRestores(k: seq<real>)
    requires NormaliseByLast(k).Ok?
    ensures forall i :: 0 <= i < |k| ==> NormaliseByLast(k).value[i] * k[|k| - 1] == k[i]
  {
  }

  /** One direction's knot vector as read from the file. */
  function StepKnots(k: seq<real>, m: seq<nat>): (r: Result<seq<real>, Error>)
    ensures r.Ok? ==> |r.value| > 0 && r.value[|r.value| - 1] == 1.0
  {
    var repeated :- RepeatByMultiplicity(k, m);
    NormaliseByLast(repeated)
  }

  /** A direction's knots are the repeated knots scaled by the last one: the expansion fails exactly
      when the repetition fails or leaves no knot or a last knot of zero, and keeps the repeated length. */
  lemma StepKnotsExpand(k: seq<real>, m: seq<nat>)
    ensures StepKnots(k, m).Ok? <==>
      RepeatByMultiplicity(k, m).Ok? && NormaliseByLast(RepeatByMultiplicity(k, m).value).Ok?
    ensures StepKnots(k, m).Ok? ==>
      var repeated, r := RepeatByMultiplicity(k, m).value, StepKnots(k, m).value;
      |r| == |repeated| && forall i :: 0 <= i < |r| ==> r[i] * repeated[|r| - 1] == repeated[i]
  {
    if StepKnots(k, m).Ok? {
      NormaliseRestores(RepeatByMultiplicity(k, m).value);
    }
  }

  /** The function space of an imported surface. */
  function SpaceFromStep(name: string, s: StepSurface): (r: Result<Space, Error>)
    ensures r.Ok? <==> StepKnots(s.knotsU, s.multiplicitiesU).Ok? && StepKnots(s.knotsV, s.multiplicitiesV).Ok?
    ensures r.Ok? ==>
      var ku := StepKnots(s.knotsU, s.multiplicitiesU).value;
      var kv := StepKnots(s.knotsV, s.multiplicitiesV).value;
      r.value.name == name
      && r.value.order == [s.degreeU + 1, s.degreeV + 1]
      && r.value.coefficientShape == [|ku| - (s.degreeU + 1), |kv| - (s.degreeV + 1)]
      && r.value.knots == Some(ku + kv)
  {
    var ku :- StepKnots(s.knotsU, s.multiplicitiesU);
    var kv :- StepKnots(s.knotsV, s.multiplicitiesV);
    var orderU, orderV := s.degreeU + 1, s.degreeV + 1;
    Ok(Space(name, [orderU, orderV], Some(ku + kv), [|ku| - orderU, |kv| - orderV]))
  }

  /** An imported space's flat knot vector splits back into the two directions' vectors exactly:
      coefficient count plus order is the first direction's knot count. */
  lemma ImportedKnotsSplit(name: string, s: StepSurface, k: Kernels)
    requires SpaceFromStep(name, s).Ok?
    ensures var sp := SpaceFromStep(name, s).value;
      SurfaceKnots(sp.order[0], sp.order[1], sp.coefficientShape, sp.knots, k)
        == Ok((StepKnots(s.knotsU, s.multiplicitiesU).value, StepKnots(s.knotsV, s.multiplicitiesV).value))
  {
    var ku := StepKnots(s.knotsU, s.multiplicitiesU).value;
    var kv := StepKnots(s.knotsV, s.multiplicitiesV).value;
    KnotSplitConcat(ku, kv);
  }

  /** The spaces of an import, keyed by space name. Every surface's knots are expanded while the
      file is parsed, so any failing surface fails the import (the first one's error is raised);
      afterwards a space is created for the first surface with a given name and reused for the
      later ones. */
  function ImportSpaces(entries: seq<(string, StepSurface)>): (r: Result<map<string, Space>, Error>)
    ensures r.Ok? <==> forall i :: 0 <= i < |entries| ==> SpaceFromStep(entries[i].0, entries[i].1).Ok?
  {
    if |entries| == 0 then Ok(map[])
    else
      var init, last := entries[..|entries| - 1], entries[|entries| - 1];
      assert forall i :: 0 <= i < |init| ==> init[i] == entries[i];
      var registry :- ImportSpaces(init);
      var space :- SpaceFromStep(last.0, last.1);
      Ok(Register(registry, last.0, space))
  }

  /** A space is registered under a name unless the name is already taken. */
  function Register(registry: map<string, Space>, name: string, space: Space): (r: map<string, Space>)
    ensures name in r && forall n :: n in registry ==> n in r && r[n] == registry[n]
    ensures forall n :: n in r ==> n in registry || n == name
    ensures name !in registry ==> r[name] == space
  {
    if name in registry then registry else registry[name := space]
  }

  /** One import step: the last surface's space is added unless its name is already registered. */
  lemma ImportSpacesStep(entries: seq<(string, StepSurface)>)
    requires ImportSpaces(entries).Ok? && |entries| > 0
    ensures var init, last := entries[..|entries| - 1], entries[|entries| - 1];
      ImportSpaces(init).Ok? && SpaceFromStep(last.0, last.1).Ok?
      && ImportSpaces(entries).value == Register(ImportSpaces(init).value, last.0, SpaceFromStep(last.0, last.1).value)
  {
  }

  /** Every surface's name is registered. */
  lemma {:induction false} ImportSpacesRegisters(entries: seq<(string, StepSurface)>, i: nat)
    requires ImportSpaces(entries).Ok? && i < |entries|
    ensures entries[i].0 in ImportSpaces(entries).value
  {
    ImportSpacesStep(entries);
    if i < |entries| - 1 {
      var init := entries[..|entries| - 1];
      assert init[i] == entries[i];
      ImportSpacesRegisters(init, i);
    }
  }

  /** A name maps to the space built for the first surface that carries it. */
  lemma {:induction false} ImportSpacesFirstWins(entries: seq<(string, StepSurface)>, i: nat)
    requires ImportSpaces(entries).Ok? && i < |entries|
    requires forall j :: 0 <= j < i ==> entries[j].0 != entries[i].0
    ensures entries[i].0 in ImportSpaces(entries).value
    ensures ImportSpaces(entries).value[entries[i].0] == SpaceFromStep(entries[i].0, entries[i].1).value
  {
    ImportSpacesRegisters(entries, i);
    if i == |entries| - 1 {
      ImportSpacesNewLast(entries);
    } else {
      var init, last := entries[..|entries| - 1], entries[|entries| - 1];
      var name := entries[i].0;
      assert init[i] == entries[i];
      assert forall j :: 0 <= j < i ==> init[j].0 != init[i].0;
      ImportSpacesFirstWins(init, i);
      ImportSpacesRegisters(init, i);
      ImportSpacesKeeps(entries, name);
    }
  }

  /** A last surface whose name is new registers its own space. */
  lemma ImportSpacesNewLast(entries: seq<(string, StepSurface)>)
    requires ImportSpaces(entries).Ok? && |entries| > 0
    requires forall j :: 0 <= j < |entries| - 1 ==> entries[j].0 != entries[|entries| - 1].0
    ensures var last := entries[|entries| - 1];
      last.0 in ImportSpaces(entries).value && ImportSpaces(entries).value[last.0] == SpaceFromStep(last.0, last.1).value
  {
    var init, last := entries[..|entries| - 1], entries[|entries| - 1];
    ImportSpacesStep(entries);
    if last.0 in ImportSpaces(init).value {
      NameRegistered(init, last.0);
      assert false;
    }
  }

  /** A later surface leaves a name already registered by the earlier ones unchanged. */
  lemma ImportSpacesKeeps(entries: seq<(string, StepSurface)>, name: string)
    requires ImportSpaces(entries).Ok? && |entries| > 0
    requires name in ImportSpaces(entries[..|entries| - 1]).value
    ensures ImportSpaces(entries).value[name] == ImportSpaces(entries[..|entries| - 1]).value[name]
  {
    ImportSpacesStep(entries);
  }

  /** Only the surfaces' own names are registered. */
  lemma {:induction false} NameRegistered(entries: seq<(string, StepSurface)>, name: string)
    requires ImportSpaces(entries).Ok? && name in ImportSpaces(entries).value
    ensures exists j :: 0 <= j < |entries| && entries[j].0 == name
  {
    if |entries| > 0 {
      var init, last := entries[..|entries| - 1], entries[|entries| - 1];
      ImportSpacesStep(entries);
      if last.0 != name {
        NameRegistered(init, name);
        var j :| 0 <= j < |init| && init[j].0 == name;
        assert entries[j].0 == name;
      }
    }
  }
}
