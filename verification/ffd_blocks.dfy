/** Free-form deformation blocks: a B-spline volume in which entities are embedded once, each as
    the basis matrix of its points' parametric coordinates, so that moving the block's coefficients
    moves the embedded points linearly. */
module FfdBlocks {
  import opened Wrappers
  import opened Errors
  import opened NdArrays
  import opened Matrices

  /** What can be embedded: point arrays and the objects that carry them. A geometry and a function
      set contribute the coefficients of each of their functions; anything else is named by type. */
  datatype Entity =
    | ArrayEntity(points: NdArray)
    | VariableEntity(value: NdArray)
    | FunctionEntity(coefficients: NdArray)
    | GeometryEntity(functions: seq<NdArray>)
    | FunctionSetEntity(functions: seq<NdArray>)
    | Unsupported(typeName: string)

  /** The `embedded_entities` argument: a list, or a single entity. */
  datatype EntitiesArg = ListArg(entities: seq<Entity>) | Single(entity: Entity)

  /** Whether the basis matrix is requested without expansion for the physical dimensions, or with
      the space's default. */
  datatype ExpansionRequest = NotExpanded | SpaceDefault

  /** Projection of the points onto the block followed by the space's basis matrix at the
      projected parametric coordinates; both live in code this model does not contain. */
  type Embedder = (NdArray, ExpansionRequest) -> Matrix

  /** One `basis_matrices` entry: a single matrix, or one matrix per function of the entity. */
  datatype BasisEntry = SingleMap(m: Matrix) | PerFunction(ms: seq<Matrix>)

  /** The block: the function's name and coefficients, and the frozen basis matrices. */
  datatype FfdBlock = FfdBlock(name: string, coefficients: NdArray, basisMatrices: seq<BasisEntry>)

  /** A single entity is wrapped into a one-element list. */
  function EntityList(arg: EntitiesArg): (r: seq<Entity>)
    ensures arg.Single? ==> r == [arg.entity]
    ensures arg.ListArg? ==> r == arg.entities
  {
    match arg
    case ListArg(es) => es
    case Single(e) => [e]
  }

  predicate Supported(e: Entity)
  {
    !e.Unsupported?
  }

  /** The basis-matrix entry of one entity. */
  function EmbedEntity(e: Entity, embed: Embedder): (r: Result<BasisEntry, Error>)
    ensures r.Ok? <==> Supported(e)
    ensures e.Unsupported? ==> r == Err(UnsupportedEntity(e.typeName))
    ensures (e.GeometryEntity? || e.FunctionSetEntity?) ==>
      r.Ok? && r.value.PerFunction? && |r.value.ms| == |e.functions|
      && forall i :: 0 <= i < |e.functions| ==> r.value.ms[i] == embed(e.functions[i], SpaceDefault)
    ensures e.ArrayEntity? ==> r == Ok(SingleMap(embed(e.points, NotExpanded)))
    ensures e.VariableEntity? ==> r == Ok(SingleMap(embed(e.value, NotExpanded)))
    ensures e.FunctionEntity? ==> r == Ok(SingleMap(embed(e.coefficients, NotExpanded)))
  {
    match e
    case ArrayEntity(p) => Ok(SingleMap(embed(p, NotExpanded)))
    case VariableEntity(p) => Ok(SingleMap(embed(p, NotExpanded)))
    case FunctionEntity(p) => Ok(SingleMap(embed(p, NotExpanded)))
    case GeometryEntity(fs) => Ok(PerFunction(seq(|fs|, i requires 0 <= i < |fs| => embed(fs[i], SpaceDefault))))
    case FunctionSetEntity(fs) => Ok(PerFunction(seq(|fs|, i requires 0 <= i < |fs| => embed(fs[i], SpaceDefault))))
    case Unsupported(t) => Err(UnsupportedEntity(t))
  }

  predicate AllSupported(entities: seq<Entity>)
  {
    forall i :: 0 <= i < |entities| ==> Supported(entities[i])
  }

  /** `embed_entities`: entities are embedded in order, each appending its entry; the first
      unsupported one raises, leaving the entries appended before it in place. */
  function EmbedEntities(entries: seq<BasisEntry>, entities: seq<Entity>, embed: Embedder)
    : (r: (seq<BasisEntry>, Option<Error>))
    ensures |entries| <= |r.0| && r.0[..|entries|] == entries
    ensures r.1.None? <==> AllSupported(entities)
    ensures r.1.None? ==>
      |r.0| == |entries| + |entities|
      && forall i :: 0 <= i < |entities| ==> r.0[|entries| + i] == EmbedEntity(entities[i], embed).value
    decreases |entities|
  {
    if |entities| == 0 then (entries, None)
    else
      match EmbedEntity(entities[0], embed)
      case Err(e) => (entries, Some(e))
      case Ok(b) =>
        var r := EmbedEntities(entries + [b], entities[1..], embed);
        assert (entries + [b])[..|entries|] == entries;
        assert r.1.None? ==> forall i :: 1 <= i < |entities| ==> entities[1..][i - 1] == entities[i];
        r
  }

  /** The entries embedded before the first unsupported entity stay, and its type is reported. */
  lemma {:induction false} EmbedStopsAtFirstUnsupported(entries: seq<BasisEntry>, entities: seq<Entity>,
                                                        embed: Embedder, j: nat)
    requires j < |entities| && entities[j].Unsupported? && AllSupported(entities[..j])
    ensures EmbedEntities(entries, entities, embed).1 == Some(UnsupportedEntity(entities[j].typeName))
    ensures EmbedEntities(entries, entities, embed).0
            == entries + seq(j, i requires 0 <= i < j => EmbedEntity(entities[i], embed).value)
    decreases j
  {
    if j > 0 {
      assert Supported(entities[..j][0]);
      var b := EmbedEntity(entities[0], embed).value;
      assert entities[1..][..j - 1] == entities[..j][1..];
      EmbedStopsAtFirstUnsupported(entries + [b], entities[1..], embed, j - 1);
      var tail := seq(j - 1, i requires 0 <= i < j - 1 => EmbedEntity(entities[1..][i], embed).value);
      var whole := seq(j, i requires 0 <= i < j => EmbedEntity(entities[i], embed).value);
      assert whole == [b] + tail;
      assert entries + [b] + tail == entries + whole;
    }
  }

  /** `__post_init__`: the entities, wrapped into a list when single, are embedded into an empty
      entry list; an unsupported entity makes construction raise. */
  function NewFfdBlock(name: string, coefficients: NdArray, embedded: EntitiesArg, embed: Embedder)
    : (r: Result<FfdBlock, Error>)
    ensures r.Ok? <==> AllSupported(EntityList(embedded))
    ensures r.Ok? ==>
      var es := EntityList(embedded);
      r.value.name == name && r.value.coefficients == coefficients
      && |r.value.basisMatrices| == |es|
      && forall i :: 0 <= i < |es| ==> r.value.basisMatrices[i] == EmbedEntity(es[i], embed).value
  {
    var (entries, err) := EmbedEntities([], EntityList(embedded), embed);
    if err.Some? then Err(err.value) else Ok(FfdBlock(name, coefficients, entries))
  }

  /** Passing one entity is the same as passing a list holding it. */
  lemma SingleEntityWrapped(name: string, coefficients: NdArray, e: Entity, embed: Embedder)
    ensures NewFfdBlock(name, coefficients, Single(e), embed) == NewFfdBlock(name, coefficients, ListArg([e]), embed)
    ensures NewFfdBlock(name, coefficients, Single(e), embed).Ok? ==>
      NewFfdBlock(name, coefficients, Single(e), embed).value.basisMatrices == [EmbedEntity(e, embed).value]
  {
  }

  // ---------------------------------------------------------------------------------------------
  // Evaluation.

  /** The points of one entry: an array for a single matrix, a list of arrays for a list entry. */
  datatype EntryOutput = Points(a: NdArray) | PointLists(arrays: seq<NdArray>)

  /** What `evaluate_ffd` returns: the only output unwrapped, or the list of outputs. */
  datatype FfdOutput = One(output: EntryOutput) | Many(outputs: seq<EntryOutput>)

  /** `m @ coefficients.reshape((m.cols, -1))` for every matrix of a list entry, in order. */
  function ListOutputs(ms: seq<Matrix>, c: NdArray): (r: Result<seq<NdArray>, Error>)
    ensures r.Ok? <==> forall i :: 0 <= i < |ms| ==> ApplyReshaped(ms[i], c).Ok?
    ensures r.Ok? ==>
      |r.value| == |ms| && forall i :: 0 <= i < |ms| ==> r.value[i] == ApplyReshaped(ms[i], c).value
  {
    if |ms| == 0 then Ok([])
    else
      var head :- ListOutputs(ms[..|ms| - 1], c);
      var last :- ApplyReshaped(ms[|ms| - 1], c);
      Ok(head + [last])
  }

  function EvaluateEntry(entry: BasisEntry, c: NdArray): (r: Result<EntryOutput, Error>)
    ensures entry.SingleMap? ==> (r.Ok? <==> Apply(entry.m, c).Ok?)
    ensures entry.SingleMap? && r.Ok? ==> r.value == Points(Apply(entry.m, c).value)
    ensures entry.PerFunction? ==> (r.Ok? <==> ListOutputs(entry.ms, c).Ok?)
    ensures entry.PerFunction? && r.Ok? ==> r.value == PointLists(ListOutputs(entry.ms, c).value)
  {
    match entry
    case SingleMap(m) =>
      var v :- Apply(m, c);
      Ok(Points(v))
    case PerFunction(ms) =>
      var vs :- ListOutputs(ms, c);
      Ok(PointLists(vs))
  }

  /** One output per entry, in order; the first entry that cannot be applied raises. */
  function EntryOutputs(entries: seq<BasisEntry>, c: NdArray): (r: Result<seq<EntryOutput>, Error>)
    ensures r.Ok? <==> forall i :: 0 <= i < |entries| ==> EvaluateEntry(entries[i], c).Ok?
    ensures r.Ok? ==>
      |r.value| == |entries| && forall i :: 0 <= i < |entries| ==> r.value[i] == EvaluateEntry(entries[i], c).value
  {
    if |entries| == 0 then Ok([])
    else
      var head :- EntryOutputs(entries[..|entries| - 1], c);
      var last :- EvaluateEntry(entries[|entries| - 1], c);
      Ok(head + [last])
  }

  /** `evaluate_ffd`: the block's coefficients are replaced by the argument before anything else,
      so even a raising evaluation leaves them replaced; the basis matrices are only read. */
  function EvaluateFfd(block: FfdBlock, c: NdArray): (r: (FfdBlock, Result<FfdOutput, Error>))
    ensures r.0 == block.(coefficients := c)
    ensures r.1.Ok? <==> EntryOutputs(block.basisMatrices, c).Ok?
    ensures r.1.Ok? && |block.basisMatrices| == 1 ==> r.1.value == One(EntryOutputs(block.basisMatrices, c).value[0])
    ensures r.1.Ok? && |block.basisMatrices| != 1 ==>
      r.1.value.Many? && |r.1.value.outputs| == |block.basisMatrices|
      && forall i :: 0 <= i < |block.basisMatrices| ==> r.1.value.outputs[i] == EvaluateEntry(block.basisMatrices[i], c).value
  {
    var updated := block.(coefficients := c);
    match EntryOutputs(block.basisMatrices, c)
    case Err(e) => (updated, Err(e))
    case Ok(outs) => (updated, Ok(if |outs| == 1 then One(outs[0]) else Many(outs)))
  }

  /** Every output has the structure of its entry: a single matrix gives one array of `m.rows`
      rows, a list entry gives one array per matrix, each of that matrix's row count. */
  lemma EvaluateEntryShape(entry: BasisEntry, c: NdArray)
    requires EvaluateEntry(entry, c).Ok?
    ensures var o := EvaluateEntry(entry, c).value;
      match entry
      case SingleMap(m) => o.Points? && o.a.shape[0] == m.rows
      case PerFunction(ms) =>
        o.PointLists? && |o.arrays| == |ms|
        && forall i :: 0 <= i < |ms| ==> o.arrays[i].shape == [ms[i].rows, |c.data| / ms[i].cols]
  {
  }

  // ---------------------------------------------------------------------------------------------
  // Linearity.

  /** `o` is `alpha * o1 + beta * o2`, array by array, with the shapes of `o1`. */
  predicate Combines(o: EntryOutput, alpha: real, o1: EntryOutput, beta: real, o2: EntryOutput)
  {
    match o
    case Points(a) =>
      o1.Points? && o2.Points? && a.shape == o1.a.shape && |o1.a.data| == |o2.a.data|
      && a.data == Combine(alpha, o1.a.data, beta, o2.a.data)
    case PointLists(arrays) =>
      o1.PointLists? && o2.PointLists? && |arrays| == |o1.arrays| == |o2.arrays|
      && forall i :: 0 <= i < |arrays| ==>
           arrays[i].shape == o1.arrays[i].shape && |o1.arrays[i].data| == |o2.arrays[i].data|
           && arrays[i].data == Combine(alpha, o1.arrays[i].data, beta, o2.arrays[i].data)
  }

  function CombineArrays(c1: NdArray, alpha: real, c2: NdArray, beta: real): (c: NdArray)
    requires c1.shape == c2.shape
    ensures c.shape == c1.shape && c.data == Combine(alpha, c1.data, beta, c2.data)
  {
    RawNdArray(c1.shape, Combine(alpha, c1.data, beta, c2.data))
  }

  lemma EvaluateEntryLinear(entry: BasisEntry, c1: NdArray, c2: NdArray, alpha: real, beta: real)
    requires c1.shape == c2.shape && EvaluateEntry(entry, c1).Ok?
    ensures var c := CombineArrays(c1, alpha, c2, beta);
      EvaluateEntry(entry, c).Ok? && EvaluateEntry(entry, c2).Ok?
      && Combines(EvaluateEntry(entry, c).value, alpha, EvaluateEntry(entry, c1).value, beta, EvaluateEntry(entry, c2).value)
  {
    var c := CombineArrays(c1, alpha, c2, beta);
    match entry
    case SingleMap(m) =>
      ApplyLinear(m, c1, c2, alpha, beta);
    case PerFunction(ms) =>
      forall i | 0 <= i < |ms|
        ensures ApplyReshaped(ms[i], c).Ok? && ApplyReshaped(ms[i], c2).Ok?
        ensures ApplyReshaped(ms[i], c).value.shape == ApplyReshaped(ms[i], c1).value.shape
        ensures ApplyReshaped(ms[i], c).value.data
                == Combine(alpha, ApplyReshaped(ms[i], c1).value.data, beta, ApplyReshaped(ms[i], c2).value.data)
      {
        ApplyReshapedLinear(ms[i], c1, c2, alpha, beta);
      }
  }

  /** Deforming the block is linear: evaluating at `alpha * c1 + beta * c2` gives, output by output,
      `alpha` times the outputs at `c1` plus `beta` times those at `c2`; the basis matrices are the
      same in all three evaluations. */
  lemma EvaluateFfdLinear(block: FfdBlock, c1: NdArray, c2: NdArray, alpha: real, beta: real, i: nat)
    requires c1.shape == c2.shape && EvaluateFfd(block, c1).1.Ok? && i < |block.basisMatrices|
    ensures var c := CombineArrays(c1, alpha, c2, beta);
      var o, o1, o2 := EntryOutputs(block.basisMatrices, c), EntryOutputs(block.basisMatrices, c1),
                       EntryOutputs(block.basisMatrices, c2);
      EvaluateFfd(block, c).1.Ok? && o.Ok? && o2.Ok?
      && Combines(o.value[i], alpha, o1.value[i], beta, o2.value[i])
  {
    var c := CombineArrays(c1, alpha, c2, beta);
    forall j | 0 <= j < |block.basisMatrices|
      ensures EvaluateEntry(block.basisMatrices[j], c).Ok? && EvaluateEntry(block.basisMatrices[j], c2).Ok?
    {
      EvaluateEntryLinear(block.basisMatrices[j], c1, c2, alpha, beta);
    }
    EvaluateEntryLinear(block.basisMatrices[i], c1, c2, alpha, beta);
  }

  // ---------------------------------------------------------------------------------------------
  // The column-by-column product used for sparse matrices and recorded variables.

  /** `values[:, j] = col` on a flat `rows x width` buffer. */
  function SetColumn(data: seq<real>, rows: nat, width: nat, j: nat, col: seq<real>): (r: seq<real>)
    requires |data| == rows * width && j < width && |col| == rows
    ensures |r| == |data|
    ensures forall k :: 0 <= k < |data| ==> k / width < rows && r[k] == if k % width == j then col[k / width] else data[k]
  {
    seq(|data|, (k: int) requires 0 <= k < |data| =>
      RowMajorSplit(k, rows, width);
      if k % width == j then col[k / width] else data[k])
  }

  /** The product of a list entry's matrix with the reshaped coefficients, built as the recorded
      path builds it: a zero array whose columns are set one at a time to the matrix-vector product
      with the matching coefficient column. It is the same array as the dense product. */
  method ColumnwiseProduct(m: Matrix, c: NdArray) returns (values: seq<real>)
    requires ApplyReshaped(m, c).Ok?
    ensures values == ApplyReshaped(m, c).value.data
  {
    var w := |c.data| / m.cols;
    var product := MatMul(m, c.data, w);
    values := Repeat(0.0, m.rows * w);
    var i := 0;
    while i < w
      invariant 0 <= i <= w && |values| == m.rows * w
      invariant forall k :: 0 <= k < |values| ==> values[k] == if k % w < i then product[k] else 0.0
    {
      var col := MatVec(m, Column(c.data, m.cols, w, i));
      ColumnOfProduct(m, c.data, w, i);
      values := SetColumn(values, m.rows, w, i, col);
      i := i + 1;
    }
    assert values == product;
  }

  /** Entry `k` of column `j` of the product, read back from the flat buffer. */
  lemma ColumnOfProduct(m: Matrix, data: seq<real>, width: nat, j: nat)
    requires |data| == m.cols * width && j < width
    ensures forall k :: 0 <= k < m.rows * width && k % width == j ==>
      k / width < m.rows && MatVec(m, Column(data, m.cols, width, j))[k / width] == MatMul(m, data, width)[k]
  {
    forall k | 0 <= k < m.rows * width && k % width == j
      ensures k / width < m.rows && MatVec(m, Column(data, m.cols, width, j))[k / width] == MatMul(m, data, width)[k]
    {
      RowMajorSplit(k, m.rows, width);
      MatMulColumns(m, data, width, j);
      ColumnAt(MatMul(m, data, width), m.rows, width, j, k / width);
    }
  }
}
