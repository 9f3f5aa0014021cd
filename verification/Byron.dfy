// The Byron UTxO transition: validation that accumulates errors, sequential
// application of a block's transactions, and what holds along whole chains.

module Byron {
  import opened MapSum

  type Id = nat

  datatype Option<+T> = None | Some(value: T)

  datatype Key = Key(id: Id, index: int)

  datatype TxOut = TxOut(address: nat, value: int)

  /** An input is the key of the output that it spends. */
  datatype Body = Body(inputs: seq<Key>, outputs: seq<TxOut>, attributes: nat)

  type Tx = b: Body | |b.inputs| > 0 && |b.outputs| > 0 witness Body([Key(0, 0)], [TxOut(0, 0)], 0)

  datatype TxAux = TxAux(tx: Tx, witnesses: nat)

  type UTxO = map<Key, TxOut>

  /** Hash and encoded size come from outside. */
  datatype Codec = Codec(txId: Tx -> Id, size: TxAux -> nat)

  datatype FeeParams = FeeParams(a: int, bNumerator: int, bDenominator: int) {
    predicate Usable() { bDenominator != 0 }
  }

  datatype Error =
    | MissingInput(key: Key)
    | DuplicateInputs(keys: seq<Key>)
    | NonPositiveOutput(index: nat, value: int)
    | OutputsExceedInputs(inputSum: int, outputSum: int)
    | InsufficientFee(fee: int, minFee: int)

  datatype TxResult = Updated(utxo: UTxO) | Invalid(errors: seq<Error>)

  datatype BlockResult = Applied(utxo: UTxO) | Rejected(index: nat, errors: seq<Error>)

  function Ceil(x: real): int {
    -((-x).Floor)
  }

  function MinFee(fees: FeeParams, size: nat): int
    requires fees.Usable()
  {
    fees.a + Ceil((fees.bNumerator * size) as real / fees.bDenominator as real)
  }

  /** The least whole number that covers the exact linear fee. */
  lemma MinFeeIsLeast(fees: FeeParams, size: nat, fee: int)
    requires fees.Usable()
    ensures fee >= MinFee(fees, size)
            <==> fee as real >= fees.a as real + (fees.bNumerator * size) as real / fees.bDenominator as real
  {
    var exact := (fees.bNumerator * size) as real / fees.bDenominator as real;
    assert Ceil(exact) as real - 1.0 < exact <= Ceil(exact) as real;
  }

  // ----- What validation reports ----------------------------------------------------------

  function Missing(inputs: seq<Key>, utxo: UTxO): seq<Error> {
    if inputs == [] then []
    else
      var last := inputs[|inputs| - 1];
      Missing(inputs[..|inputs| - 1], utxo) + if last in utxo then [] else [MissingInput(last)]
  }

  function Resolved(inputs: seq<Key>, utxo: UTxO): seq<TxOut> {
    if inputs == [] then []
    else
      var last := inputs[|inputs| - 1];
      Resolved(inputs[..|inputs| - 1], utxo) + if last in utxo then [utxo[last]] else []
  }

  /** The keys that have already occurred earlier in the list. */
  function Repeated(keys: seq<Key>): seq<Key> {
    if keys == [] then []
    else
      var before, last := keys[..|keys| - 1], keys[|keys| - 1];
      Repeated(before) + if last in before then [last] else []
  }

  function NonPositive(outputs: seq<TxOut>): seq<Error> {
    if outputs == [] then []
    else
      var n := |outputs| - 1;
      NonPositive(outputs[..n]) + if outputs[n].value <= 0 then [NonPositiveOutput(n, outputs[n].value)] else []
  }

  function Total(outputs: seq<TxOut>): int {
    if outputs == [] then 0
    else Total(outputs[..|outputs| - 1]) + outputs[|outputs| - 1].value
  }

  function StructureErrors(tx: Tx, utxo: UTxO): seq<Error> {
    Missing(tx.inputs, utxo)
    + (if Repeated(tx.inputs) == [] then [] else [DuplicateInputs(Repeated(tx.inputs))])
    + NonPositive(tx.outputs)
  }

  function ValueErrors(inputSum: int, outputSum: int, minFee: int): seq<Error> {
    if outputSum > inputSum then [OutputsExceedInputs(inputSum, outputSum)]
    else if inputSum - outputSum < minFee then [InsufficientFee(inputSum - outputSum, minFee)]
    else []
  }

  /** All errors of a transaction, in the order in which they are found. */
  function Errors(codec: Codec, fees: FeeParams, aux: TxAux, utxo: UTxO): seq<Error>
    requires fees.Usable()
  {
    var resolved := Resolved(aux.tx.inputs, utxo);
    StructureErrors(aux.tx, utxo)
    + if |resolved| != |aux.tx.inputs| then []
      else ValueErrors(Total(resolved), Total(aux.tx.outputs), MinFee(fees, codec.size(aux)))
  }

  ghost predicate Distinct(keys: seq<Key>) {
    forall i, j :: 0 <= i < j < |keys| ==> keys[i] != keys[j]
  }

  /** The rules of the UTXO transition: every input unspent and used once, every
      output positive, and the implicit fee at least the minimum. */
  ghost predicate Valid(codec: Codec, fees: FeeParams, aux: TxAux, utxo: UTxO)
    requires fees.Usable()
  {
    && Consumed(aux.tx) <= utxo.Keys
    && Distinct(aux.tx.inputs)
    && (forall out <- aux.tx.outputs :: out.value > 0)
    && Value(Spending(aux.tx, utxo)) >= Total(aux.tx.outputs)
    && Value(Spending(aux.tx, utxo)) - Total(aux.tx.outputs) >= MinFee(fees, codec.size(aux))
  }

  function KeySet(keys: seq<Key>): set<Key> {
    set key <- keys
  }

  function Consumed(tx: Tx): set<Key> {
    KeySet(tx.inputs)
  }

  function Produced(codec: Codec, tx: Tx): UTxO {
    Entries(codec.txId(tx), tx.outputs)
  }

  function Entries(id: Id, outputs: seq<TxOut>): UTxO {
    map key <- Outputs(id, |outputs|) :: outputs[key.index]
  }

  function Outputs(id: Id, n: nat): (keys: set<Key>)
    ensures forall key :: key in keys <==> key.id == id && 0 <= key.index < n
  {
    set i: int | 0 <= i < n :: Key(id, i)
  }

  ghost function Values(utxo: UTxO): map<Key, int> {
    map key <- utxo :: utxo[key].value
  }

  ghost function Value(utxo: UTxO): int {
    Sum(Values(utxo))
  }

  ghost function Restrict(utxo: UTxO, keys: seq<Key>): UTxO {
    map key <- utxo | key in keys :: utxo[key]
  }

  /** The entries that a transaction spends. */
  ghost function Spending(tx: Tx, utxo: UTxO): UTxO {
    Restrict(utxo, tx.inputs)
  }

  /** The UTxO set after an accepted transaction. */
  function Update(codec: Codec, utxo: UTxO, tx: Tx): UTxO {
    (utxo - Consumed(tx)) + Produced(codec, tx)
  }

  /** An update entry by entry: the outputs appear under the new id, everything
      else is untouched except that the inputs are gone. */
  ghost predicate EntryAfter(codec: Codec, utxo: UTxO, tx: Tx, after: UTxO, key: Key) {
    if key.id == codec.txId(tx) && 0 <= key.index < |tx.outputs| then
      key in after && after[key] == tx.outputs[key.index]
    else
      && (key in after <==> key in utxo && key !in tx.inputs)
      && (key in after ==> after[key] == utxo[key])
  }

  lemma UpdateMeans(codec: Codec, utxo: UTxO, tx: Tx, key: Key)
    ensures EntryAfter(codec, utxo, tx, Update(codec, utxo, tx), key)
  {}

  // ----- The errors are exactly the broken rules -------------------------------------------

  lemma {:induction false} MissingExactly(inputs: seq<Key>, utxo: UTxO)
    ensures Missing(inputs, utxo) == [] <==> forall key <- inputs :: key in utxo
    ensures Missing(inputs, utxo) == [] <==> |Resolved(inputs, utxo)| == |inputs|
    ensures |Resolved(inputs, utxo)| <= |inputs|
  {
    if inputs != [] {
      var before, last := inputs[..|inputs| - 1], inputs[|inputs| - 1];
      MissingExactly(before, utxo);
      assert forall key :: key in inputs <==> key in before || key == last;
    }
  }

  lemma DistinctSnoc(keys: seq<Key>)
    requires keys != []
    ensures var n := |keys| - 1; Distinct(keys) <==> Distinct(keys[..n]) && keys[n] !in keys[..n]
  {
    var n := |keys| - 1;
    assert forall i | 0 <= i < n :: keys[..n][i] == keys[i];
  }

  lemma {:induction false} RepeatedExactly(keys: seq<Key>)
    ensures Repeated(keys) == [] <==> Distinct(keys)
  {
    if keys != [] {
      DistinctSnoc(keys);
      hide Distinct;
      RepeatedExactly(keys[..|keys| - 1]);
    }
  }

  lemma {:induction false} NonPositiveExactly(outputs: seq<TxOut>)
    ensures NonPositive(outputs) == [] <==> forall out <- outputs :: out.value > 0
  {
    if outputs != [] {
      var n := |outputs| - 1;
      NonPositiveExactly(outputs[..n]);
      assert forall out :: out in outputs <==> out in outputs[..n] || out == outputs[n];
    }
  }

  lemma RestrictStep(utxo: UTxO, before: seq<Key>, last: Key)
    requires last in utxo && last !in before
    ensures Value(Restrict(utxo, before + [last])) == Value(Restrict(utxo, before)) + utxo[last].value
  {
    assert Values(Restrict(utxo, before + [last])) == Values(Restrict(utxo, before))[last := utxo[last].value];
    SumPut(Values(Restrict(utxo, before)), last, utxo[last].value);
  }

  /** Over distinct resolved keys the sum along the list is the sum over the set. */
  lemma {:induction false} ResolvedTotal(inputs: seq<Key>, utxo: UTxO)
    requires Distinct(inputs) && forall key <- inputs :: key in utxo
    ensures Total(Resolved(inputs, utxo)) == Value(Restrict(utxo, inputs))
  {
    if inputs == [] {
      assert Values(Restrict(utxo, inputs)) == map[];
    } else {
      hide Restrict, Distinct, Values;
      var before, last := inputs[..|inputs| - 1], inputs[|inputs| - 1];
      assert inputs == before + [last];
      DistinctSnoc(inputs);
      ResolvedTotal(before, utxo);
      RestrictStep(utxo, before, last);
    }
  }

  // ----- Which errors are reported -----------------------------------------------------------

  /** Positions of a list of length n, in order. */
  ghost predicate Positions(at: seq<nat>, n: nat) {
    (forall j :: 0 <= j < |at| ==> at[j] < n) && forall i, j :: 0 <= i < j < |at| ==> at[i] < at[j]
  }

  /** The positions of exactly the marked elements. */
  ghost predicate AreThose(marks: seq<bool>, at: seq<nat>) {
    Positions(at, |marks|) && forall i: nat :: i < |marks| ==> (i in at <==> marks[i])
  }

  lemma InLonger(at: seq<nat>, n: nat, i: nat)
    ensures i in at + [n] <==> i in at || i == n
  {}

  lemma NextPosition(marks: seq<bool>, at: seq<nat>)
    requires marks != [] && AreThose(marks[..|marks| - 1], at)
    ensures AreThose(marks, if marks[|marks| - 1] then at + [|marks| - 1] else at)
  {
    var n := |marks| - 1;
    forall i: nat | i < |marks| ensures i in (if marks[n] then at + [n] else at) <==> marks[i] {
      InLonger(at, n, i);
      if i < n {
        assert marks[..n][i] == marks[i];
      }
    }
  }

  ghost function MissingMarks(inputs: seq<Key>, utxo: UTxO): seq<bool> {
    seq(|inputs|, i requires 0 <= i < |inputs| => inputs[i] !in utxo)
  }

  ghost function RepeatedMarks(keys: seq<Key>): seq<bool> {
    seq(|keys|, i requires 0 <= i < |keys| => keys[i] in keys[..i])
  }

  ghost function BadMarks(outputs: seq<TxOut>): seq<bool> {
    seq(|outputs|, i requires 0 <= i < |outputs| => outputs[i].value <= 0)
  }

  /** The keys at some positions. */
  ghost function KeysAt(keys: seq<Key>, at: seq<nat>): seq<Key>
    requires Positions(at, |keys|)
  {
    seq(|at|, j requires 0 <= j < |at| => keys[at[j]])
  }

  ghost function MissingAt(inputs: seq<Key>, at: seq<nat>): seq<Error>
    requires Positions(at, |inputs|)
  {
    seq(|at|, j requires 0 <= j < |at| => MissingInput(inputs[at[j]]))
  }

  ghost function BadAt(outputs: seq<TxOut>, at: seq<nat>): seq<Error>
    requires Positions(at, |outputs|)
  {
    seq(|at|, j requires 0 <= j < |at| => NonPositiveOutput(at[j], outputs[at[j]].value))
  }

  lemma PositionsInLonger(at: seq<nat>, n: nat)
    requires Positions(at, n)
    ensures Positions(at, n + 1) && Positions(at + [n], n + 1)
  {}

  lemma MissingMore(inputs: seq<Key>, utxo: UTxO, at: seq<nat>)
    requires inputs != [] && Positions(at, |inputs| - 1)
    ensures var n := |inputs| - 1;
            && MissingMarks(inputs, utxo)[..n] == MissingMarks(inputs[..n], utxo)
            && Positions(at, n + 1) && Positions(at + [n], n + 1)
            && MissingAt(inputs, at) == MissingAt(inputs[..n], at)
            && MissingAt(inputs, at + [n]) == MissingAt(inputs[..n], at) + [MissingInput(inputs[n])]
  {
    PositionsInLonger(at, |inputs| - 1);
  }

  lemma RepeatedMore(keys: seq<Key>, at: seq<nat>)
    requires keys != [] && Positions(at, |keys| - 1)
    ensures var n := |keys| - 1;
            && Positions(at, n + 1) && Positions(at + [n], n + 1)
            && KeysAt(keys, at) == KeysAt(keys[..n], at)
            && KeysAt(keys, at + [n]) == KeysAt(keys[..n], at) + [keys[n]]
  {
    PositionsInLonger(at, |keys| - 1);
  }

  lemma RepeatedMarksMore(keys: seq<Key>)
    requires keys != []
    ensures var n := |keys| - 1;
            RepeatedMarks(keys)[..n] == RepeatedMarks(keys[..n]) && (RepeatedMarks(keys)[n] <==> keys[n] in keys[..n])
  {
    var n := |keys| - 1;
    forall i | 0 <= i < n ensures RepeatedMarks(keys)[..n][i] == RepeatedMarks(keys[..n])[i] {
      assert keys[..n][..i] == keys[..i];
    }
  }

  lemma BadMore(outputs: seq<TxOut>, at: seq<nat>)
    requires outputs != [] && Positions(at, |outputs| - 1)
    ensures var n := |outputs| - 1;
            && BadMarks(outputs)[..n] == BadMarks(outputs[..n])
            && Positions(at, n + 1) && Positions(at + [n], n + 1)
            && BadAt(outputs, at) == BadAt(outputs[..n], at)
            && BadAt(outputs, at + [n]) == BadAt(outputs[..n], at) + [NonPositiveOutput(n, outputs[n].value)]
  {
    PositionsInLonger(at, |outputs| - 1);
  }

  /** A missing input is reported once for every position at which it stands, in order. */
  lemma {:induction false} MissingNames(inputs: seq<Key>, utxo: UTxO) returns (at: seq<nat>)
    ensures AreThose(MissingMarks(inputs, utxo), at) && Positions(at, |inputs|)
    ensures Missing(inputs, utxo) == MissingAt(inputs, at)
  {
    if inputs == [] {
      at := [];
    } else {
      hide AreThose, Positions, MissingAt;
      var n := |inputs| - 1;
      at := MissingNames(inputs[..n], utxo);
      MissingMore(inputs, utxo, at);
      NextPosition(MissingMarks(inputs, utxo), at);
      if inputs[n] !in utxo {
        at := at + [n];
      }
    }
  }

  /** The duplicates are named once for every repetition, in order. */
  lemma {:induction false} RepeatedNames(keys: seq<Key>) returns (at: seq<nat>)
    ensures AreThose(RepeatedMarks(keys), at) && Positions(at, |keys|)
    ensures Repeated(keys) == KeysAt(keys, at)
  {
    if keys == [] {
      at := [];
    } else {
      var n := |keys| - 1;
      RepeatedMarksMore(keys);
      at := RepeatedNames(keys[..n]);
      RepeatedMore(keys, at);
      assert |RepeatedMarks(keys)| == |keys|;
      hide AreThose, Positions, KeysAt, RepeatedMarks;
      NextPosition(RepeatedMarks(keys), at);
      if keys[n] in keys[..n] {
        at := at + [n];
      }
    }
  }

  /** Every output that is not positive is reported with its index and value, in order. */
  lemma {:induction false} NonPositiveNames(outputs: seq<TxOut>) returns (at: seq<nat>)
    ensures AreThose(BadMarks(outputs), at) && Positions(at, |outputs|)
    ensures NonPositive(outputs) == BadAt(outputs, at)
  {
    if outputs == [] {
      at := [];
    } else {
      hide AreThose, Positions, BadAt;
      var n := |outputs| - 1;
      at := NonPositiveNames(outputs[..n]);
      BadMore(outputs, at);
      NextPosition(BadMarks(outputs), at);
      if outputs[n].value <= 0 {
        at := at + [n];
      }
    }
  }

  /** The value of the entries that a list of inputs names, repetitions included. */
  ghost function ValueAlong(inputs: seq<Key>, utxo: UTxO): int {
    if inputs == [] then 0
    else (if inputs[0] in utxo then utxo[inputs[0]].value else 0) + ValueAlong(inputs[1..], utxo)
  }

  lemma {:induction false} ValueAlongLast(inputs: seq<Key>, utxo: UTxO)
    requires inputs != []
    ensures var n := |inputs| - 1;
            ValueAlong(inputs, utxo) == ValueAlong(inputs[..n], utxo) + if inputs[n] in utxo then utxo[inputs[n]].value else 0
  {
    var n := |inputs| - 1;
    if n > 0 {
      ValueAlongLast(inputs[1..], utxo);
      assert inputs[1..][..n - 1] == inputs[..n][1..];
    }
  }

  lemma {:induction false} TotalAlong(inputs: seq<Key>, utxo: UTxO)
    ensures Total(Resolved(inputs, utxo)) == ValueAlong(inputs, utxo)
  {
    if inputs != [] {
      var n := |inputs| - 1;
      TotalAlong(inputs[..n], utxo);
      ValueAlongLast(inputs, utxo);
      var before := Resolved(inputs[..n], utxo);
      assert before + [] == before;
      assert inputs[n] in utxo ==> (before + [utxo[inputs[n]]])[..|before|] == before;
    }
  }

  lemma NoneAt(inputs: seq<Key>, outputs: seq<TxOut>, at: seq<nat>)
    ensures Positions(at, |inputs|) ==>
              (MissingAt(inputs, at) == [] <==> at == []) && (KeysAt(inputs, at) == [] <==> at == [])
  {}

  /** The errors of a transaction, in order: a line for every missing input; one that
      names all repetitions, if there are any; a line for every bad output; and, if all
      inputs are there, the sums when more goes out than comes in, or else the fee and
      the least one if it is too small. */
  lemma ErrorsName(codec: Codec, fees: FeeParams, aux: TxAux, utxo: UTxO)
    returns (missing: seq<nat>, again: seq<nat>, bad: seq<nat>)
    requires fees.Usable()
    ensures AreThose(MissingMarks(aux.tx.inputs, utxo), missing) && Positions(missing, |aux.tx.inputs|)
    ensures AreThose(RepeatedMarks(aux.tx.inputs), again) && Positions(again, |aux.tx.inputs|)
    ensures AreThose(BadMarks(aux.tx.outputs), bad) && Positions(bad, |aux.tx.outputs|)
    ensures var tx, minFee := aux.tx, MinFee(fees, codec.size(aux));
            var inputSum, outputSum := ValueAlong(tx.inputs, utxo), Total(tx.outputs);
            Errors(codec, fees, aux, utxo) ==
            MissingAt(tx.inputs, missing)
            + (if again == [] then [] else [DuplicateInputs(KeysAt(tx.inputs, again))])
            + BadAt(tx.outputs, bad)
            + (if missing != [] then []
               else if outputSum > inputSum then [OutputsExceedInputs(inputSum, outputSum)]
               else if inputSum - outputSum < minFee then [InsufficientFee(inputSum - outputSum, minFee)]
               else [])
  {
    hide MinFee, Missing, Repeated, NonPositive, Total, Resolved, Positions, MissingAt, KeysAt, BadAt, ValueAlong,
         AreThose, MissingMarks, RepeatedMarks, BadMarks;
    var tx := aux.tx;
    missing := MissingNames(tx.inputs, utxo);
    again := RepeatedNames(tx.inputs);
    bad := NonPositiveNames(tx.outputs);
    NoneAt(tx.inputs, tx.outputs, missing);
    NoneAt(tx.inputs, tx.outputs, again);
    MissingExactly(tx.inputs, utxo);
    TotalAlong(tx.inputs, utxo);
  }

  /** No error is reported exactly when every rule holds. */
  lemma ErrorsExactly(codec: Codec, fees: FeeParams, aux: TxAux, utxo: UTxO)
    requires fees.Usable()
    ensures Errors(codec, fees, aux, utxo) == [] <==> Valid(codec, fees, aux, utxo)
  {
    hide MinFee, Value;
    MissingExactly(aux.tx.inputs, utxo);
    RepeatedExactly(aux.tx.inputs);
    NonPositiveExactly(aux.tx.outputs);
    if Distinct(aux.tx.inputs) && (forall key <- aux.tx.inputs :: key in utxo) {
      ResolvedTotal(aux.tx.inputs, utxo);
    }
  }

  // ----- Validation ---------------------------------------------------------------------------

  lemma {:induction false} DistinctSize(keys: seq<Key>)
    ensures |KeySet(keys)| <= |keys|
    ensures |KeySet(keys)| == |keys| <==> Repeated(keys) == []
  {
    if keys != [] {
      var n := |keys| - 1;
      DistinctSize(keys[..n]);
      assert KeySet(keys) == KeySet(keys[..n]) + {keys[n]};
    }
  }

  method SumValuesOf(outputs: seq<TxOut>) returns (total: int)
    ensures total == Total(outputs)
  {
    total := 0;
    for i := 0 to |outputs|
      invariant total == Total(outputs[..i])
    {
      assert outputs[..i + 1][..i] == outputs[..i];
      total := total + outputs[i].value;
    }
    assert outputs[..|outputs|] == outputs;
  }

  method ValidateTx(codec: Codec, fees: FeeParams, aux: TxAux, utxo: UTxO) returns (errors: seq<Error>)
    requires fees.Usable()
    ensures errors == Errors(codec, fees, aux, utxo)
    ensures errors == [] <==> Valid(codec, fees, aux, utxo)
  {
    ErrorsExactly(codec, fees, aux, utxo);
    hide Valid, MinFee, Missing, Resolved, Repeated, Total, KeySet;
    var tx := aux.tx;
    var missing, resolved := ResolveInputs(tx.inputs, utxo);
    errors := missing;
    var distinct := KeySet(tx.inputs);
    DistinctSize(tx.inputs);
    if |tx.inputs| != |distinct| {
      var duplicates := FindDuplicates(tx.inputs);
      errors := errors + [DuplicateInputs(duplicates)];
    }
    var bad := CheckOutputs(tx.outputs);
    errors := errors + bad;
    assert errors == StructureErrors(tx, utxo);
    hide StructureErrors;
    if |resolved| != |tx.inputs| {
      return;
    }
    var inputSum := SumValuesOf(resolved);
    var outputSum := SumValuesOf(tx.outputs);
    if outputSum > inputSum {
      errors := errors + [OutputsExceedInputs(inputSum, outputSum)];
      return;
    }
    var fee := inputSum - outputSum;
    var minFee := MinFee(fees, codec.size(aux));
    if fee < minFee {
      errors := errors + [InsufficientFee(fee, minFee)];
    }
  }

  method ResolveInputs(inputs: seq<Key>, utxo: UTxO) returns (errors: seq<Error>, resolved: seq<TxOut>)
    ensures errors == Missing(inputs, utxo) && resolved == Resolved(inputs, utxo)
  {
    errors, resolved := [], [];
    for i := 0 to |inputs|
      invariant errors == Missing(inputs[..i], utxo) && resolved == Resolved(inputs[..i], utxo)
    {
      assert inputs[..i + 1][..i] == inputs[..i];
      if inputs[i] !in utxo {
        errors := errors + [MissingInput(inputs[i])];
      } else {
        resolved := resolved + [utxo[inputs[i]]];
      }
    }
    assert inputs[..|inputs|] == inputs;
  }

  method FindDuplicates(keys: seq<Key>) returns (duplicates: seq<Key>)
    ensures duplicates == Repeated(keys)
  {
    var seen: set<Key> := {};
    duplicates := [];
    for i := 0 to |keys|
      invariant seen == KeySet(keys[..i])
      invariant duplicates == Repeated(keys[..i])
    {
      assert keys[..i + 1][..i] == keys[..i];
      if keys[i] in seen {
        duplicates := duplicates + [keys[i]];
      }
      seen := seen + {keys[i]};
    }
    assert keys[..|keys|] == keys;
  }

  method CheckOutputs(outputs: seq<TxOut>) returns (errors: seq<Error>)
    ensures errors == NonPositive(outputs)
  {
    errors := [];
    for i := 0 to |outputs|
      invariant errors == NonPositive(outputs[..i])
    {
      assert outputs[..i + 1][..i] == outputs[..i];
      if outputs[i].value <= 0 {
        errors := errors + [NonPositiveOutput(i, outputs[i].value)];
      }
    }
    assert outputs[..|outputs|] == outputs;
  }

  method ApplyTx(codec: Codec, fees: FeeParams, aux: TxAux, utxo: UTxO) returns (result: TxResult)
    requires fees.Usable()
    ensures Valid(codec, fees, aux, utxo) ==> result == Updated(Update(codec, utxo, aux.tx))
    ensures Valid(codec, fees, aux, utxo) ==> forall key :: EntryAfter(codec, utxo, aux.tx, result.utxo, key)
    ensures !Valid(codec, fees, aux, utxo) ==> result == Invalid(Errors(codec, fees, aux, utxo)) && result.errors != []
  {
    hide Valid, Errors, EntryAfter;
    var errors := ValidateTx(codec, fees, aux, utxo);
    if errors != [] {
      return Invalid(errors);
    }
    var newUtxo := map key <- utxo | key !in Consumed(aux.tx) :: utxo[key];
    newUtxo := newUtxo + Produced(codec, aux.tx);
    assert newUtxo == Update(codec, utxo, aux.tx);
    forall key ensures EntryAfter(codec, utxo, aux.tx, newUtxo, key) {
      UpdateMeans(codec, utxo, aux.tx, key);
    }
    result := Updated(newUtxo);
  }

  // ----- Runs of transactions ---------------------------------------------------------------------

  /** The UTxO set after a list of transactions, if every one is valid in turn. */
  ghost function Run(codec: Codec, fees: FeeParams, utxo: UTxO, txs: seq<TxAux>): Option<UTxO>
    requires fees.Usable()
  {
    if txs == [] then Some(utxo)
    else
      var n := |txs| - 1;
      match Run(codec, fees, utxo, txs[..n])
      case None => None
      case Some(before) => if Valid(codec, fees, txs[n], before) then Some(Update(codec, before, txs[n].tx)) else None
  }

  lemma {:induction false} RunPrefix(codec: Codec, fees: FeeParams, utxo: UTxO, txs: seq<TxAux>, i: nat)
    requires fees.Usable() && i <= |txs| && Run(codec, fees, utxo, txs).Some?
    ensures Run(codec, fees, utxo, txs[..i]).Some?
    ensures i < |txs| ==> Valid(codec, fees, txs[i], Run(codec, fees, utxo, txs[..i]).value)
  {
    if i < |txs| {
      var n := |txs| - 1;
      if i < n {
        RunPrefix(codec, fees, utxo, txs[..n], i);
        assert txs[..n][..i] == txs[..i];
      }
    } else {
      assert txs[..i] == txs;
    }
  }

  lemma RunStep(codec: Codec, fees: FeeParams, utxo: UTxO, txs: seq<TxAux>, i: nat)
    requires fees.Usable() && i < |txs| && Run(codec, fees, utxo, txs[..i]).Some?
    ensures var before := Run(codec, fees, utxo, txs[..i]).value;
            Run(codec, fees, utxo, txs[..i + 1])
            == if Valid(codec, fees, txs[i], before) then Some(Update(codec, before, txs[i].tx)) else None
  {
    assert txs[..i + 1][..i] == txs[..i];
  }

  method ApplyBlock(codec: Codec, fees: FeeParams, txs: seq<TxAux>, utxo: UTxO) returns (result: BlockResult)
    requires fees.Usable()
    ensures result.Applied? ==> Run(codec, fees, utxo, txs) == Some(result.utxo)
    ensures result.Rejected? ==>
              && Run(codec, fees, utxo, txs).None?
              && result.index < |txs| && Run(codec, fees, utxo, txs[..result.index]).Some?
              && result.errors == Errors(codec, fees, txs[result.index], Run(codec, fees, utxo, txs[..result.index]).value)
              && result.errors != []
  {
    hide Valid, Errors, Update;
    var current := utxo;
    for i := 0 to |txs|
      invariant Run(codec, fees, utxo, txs[..i]) == Some(current)
    {
      RunStep(codec, fees, utxo, txs, i);
      var step := ApplyTx(codec, fees, txs[i], current);
      if step.Invalid? {
        if Run(codec, fees, utxo, txs).Some? {
          RunPrefix(codec, fees, utxo, txs, i);
        }
        return Rejected(i, step.errors);
      }
      current := step.utxo;
    }
    assert txs[..|txs|] == txs;
    result := Applied(current);
  }

  /** The UTxO set after a chain of blocks. */
  ghost function RunChain(codec: Codec, fees: FeeParams, utxo: UTxO, blocks: seq<seq<TxAux>>): Option<UTxO>
    requires fees.Usable()
    decreases |blocks|
  {
    if blocks == [] then Some(utxo)
    else
      match Run(codec, fees, utxo, blocks[0])
      case None => None
      case Some(next) => RunChain(codec, fees, next, blocks[1..])
  }

  ghost function Flatten(blocks: seq<seq<TxAux>>): seq<TxAux> {
    if blocks == [] then [] else blocks[0] + Flatten(blocks[1..])
  }

  lemma {:induction false} RunConcat(codec: Codec, fees: FeeParams, utxo: UTxO, first: seq<TxAux>, second: seq<TxAux>)
    requires fees.Usable()
    ensures Run(codec, fees, utxo, first + second)
            == if Run(codec, fees, utxo, first).None? then None
               else Run(codec, fees, Run(codec, fees, utxo, first).value, second)
    decreases |second|
  {
    hide Valid, Update;
    if second == [] {
      assert first + second == first;
    } else {
      var n := |second| - 1;
      RunConcat(codec, fees, utxo, first, second[..n]);
      assert (first + second)[..|first| + n] == first + second[..n];
      assert (first + second)[|first| + n] == second[n];
    }
  }

  /** Block boundaries do not matter: a chain is accepted exactly when its
      transactions are, one after another. */
  lemma {:induction false} ChainIsRun(codec: Codec, fees: FeeParams, utxo: UTxO, blocks: seq<seq<TxAux>>)
    requires fees.Usable()
    ensures RunChain(codec, fees, utxo, blocks) == Run(codec, fees, utxo, Flatten(blocks))
    decreases |blocks|
  {
    if blocks != [] {
      RunConcat(codec, fees, utxo, blocks[0], Flatten(blocks[1..]));
      if Run(codec, fees, utxo, blocks[0]).Some? {
        ChainIsRun(codec, fees, Run(codec, fees, utxo, blocks[0]).value, blocks[1..]);
      }
    }
  }

  // ----- No replay, no double spend, no overwriting -------------------------------------------------

  /** Different transactions of the run have different ids, and none has the id
      of a genesis entry. */
  ghost predicate FreshIds(codec: Codec, genesis: UTxO, txs: seq<TxAux>) {
    && (forall i, j :: 0 <= i < j < |txs| && txs[i].tx != txs[j].tx ==> codec.txId(txs[i].tx) != codec.txId(txs[j].tx))
    && (forall key, i :: key in genesis && 0 <= i < |txs| ==> key.id != codec.txId(txs[i].tx))
  }

  /** Every key consumed by a list of transactions. */
  ghost function Spent(txs: seq<TxAux>): set<Key> {
    if txs == [] then {} else Spent(txs[..|txs| - 1]) + Consumed(txs[|txs| - 1].tx)
  }

  /** Every key that ever existed: those of genesis and those produced. */
  ghost function Created(codec: Codec, genesis: UTxO, txs: seq<TxAux>): set<Key> {
    if txs == [] then genesis.Keys
    else Created(codec, genesis, txs[..|txs| - 1]) + Produced(codec, txs[|txs| - 1].tx).Keys
  }

  lemma {:induction false} SpentContains(txs: seq<TxAux>, i: nat)
    requires i < |txs|
    ensures Consumed(txs[i].tx) <= Spent(txs)
  {
    var n := |txs| - 1;
    if i < n {
      SpentContains(txs[..n], i);
    }
  }

  lemma {:induction false} CreatedBy(codec: Codec, genesis: UTxO, txs: seq<TxAux>, key: Key) returns (i: nat)
    requires key in Created(codec, genesis, txs)
    ensures i <= |txs| && (i < |txs| ==> key in Produced(codec, txs[i].tx)) && (i == |txs| ==> key in genesis)
  {
    if txs == [] {
      i := 0;
    } else {
      var n := |txs| - 1;
      if key in Produced(codec, txs[n].tx) {
        i := n;
      } else {
        i := CreatedBy(codec, genesis, txs[..n], key);
        if i == n {
          i := n + 1;
        }
      }
    }
  }

  /** The entries are exactly the keys created and not yet spent. */
  ghost predicate Ledger(codec: Codec, genesis: UTxO, txs: seq<TxAux>, utxo: UTxO) {
    && Spent(txs) <= Created(codec, genesis, txs)
    && utxo.Keys == Created(codec, genesis, txs) - Spent(txs)
  }

  /** A transaction that is valid now has never been applied before and creates
      only keys that never existed. */
  lemma NothingComesBack(codec: Codec, genesis: UTxO, txs: seq<TxAux>, utxo: UTxO, aux: TxAux)
    requires Ledger(codec, genesis, txs, utxo) && FreshIds(codec, genesis, txs + [aux])
    requires Consumed(aux.tx) <= utxo.Keys
    ensures forall i | 0 <= i < |txs| :: txs[i].tx != aux.tx
    ensures Produced(codec, aux.tx).Keys !! Created(codec, genesis, txs)
  {
    var all := txs + [aux];
    forall i | 0 <= i < |txs| ensures txs[i].tx != aux.tx {
      SpentContains(txs, i);
      assert aux.tx.inputs[0] in Consumed(aux.tx) && aux.tx.inputs[0] !in Consumed(txs[i].tx);
    }
    forall key | key in Created(codec, genesis, txs) ensures key !in Produced(codec, aux.tx) {
      var i := CreatedBy(codec, genesis, txs, key);
      assert all[|txs|] == aux;
      assert i < |txs| ==> all[i] == txs[i];
    }
  }

  lemma NothingYet(codec: Codec, genesis: UTxO)
    ensures Ledger(codec, genesis, [], genesis)
  {}

  lemma FreshPrefix(codec: Codec, genesis: UTxO, txs: seq<TxAux>, i: nat)
    requires FreshIds(codec, genesis, txs) && i <= |txs|
    ensures FreshIds(codec, genesis, txs[..i])
  {
    var before := txs[..i];
    assert forall j | 0 <= j < i :: before[j] == txs[j];
  }

  lemma LedgerStep(codec: Codec, genesis: UTxO, txs: seq<TxAux>, utxo: UTxO, aux: TxAux)
    requires Ledger(codec, genesis, txs, utxo)
    requires Consumed(aux.tx) <= utxo.Keys && Produced(codec, aux.tx).Keys !! Created(codec, genesis, txs)
    ensures Ledger(codec, genesis, txs + [aux], Update(codec, utxo, aux.tx))
  {
    hide Consumed, Produced;
    assert (txs + [aux])[..|txs|] == txs;
  }

  lemma {:induction false} RunKeepsLedger(codec: Codec, fees: FeeParams, genesis: UTxO, txs: seq<TxAux>)
    requires fees.Usable() && FreshIds(codec, genesis, txs) && Run(codec, fees, genesis, txs).Some?
    ensures Ledger(codec, genesis, txs, Run(codec, fees, genesis, txs).value)
  {
    if txs == [] {
      NothingYet(codec, genesis);
    } else {
      hide FreshIds, Ledger, Update;
      var n := |txs| - 1;
      FreshPrefix(codec, genesis, txs, n);
      RunPrefix(codec, fees, genesis, txs, n);
      RunKeepsLedger(codec, fees, genesis, txs[..n]);
      var before := Run(codec, fees, genesis, txs[..n]).value;
      assert txs[..n] + [txs[n]] == txs;
      NothingComesBack(codec, genesis, txs[..n], before, txs[n]);
      LedgerStep(codec, genesis, txs[..n], before, txs[n]);
    }
  }

  /** Along every accepted run, no transaction is accepted twice - not even with
      other witnesses -, no key is consumed twice, and no produced entry
      overwrites one that exists or ever existed. */
  lemma NoReplayNoDoubleSpend(codec: Codec, fees: FeeParams, genesis: UTxO, txs: seq<TxAux>)
    requires fees.Usable() && FreshIds(codec, genesis, txs) && Run(codec, fees, genesis, txs).Some?
    ensures forall i, j :: 0 <= i < j < |txs| ==> txs[i].tx != txs[j].tx
    ensures forall i, j :: 0 <= i < j < |txs| ==> Consumed(txs[i].tx) !! Consumed(txs[j].tx)
    ensures forall j :: 0 <= j < |txs| ==> Produced(codec, txs[j].tx).Keys !! Created(codec, genesis, txs[..j])
    ensures Ledger(codec, genesis, txs, Run(codec, fees, genesis, txs).value)
  {
    hide Valid, FreshIds;
    RunKeepsLedger(codec, fees, genesis, txs);
    forall j | 0 <= j < |txs|
      ensures Produced(codec, txs[j].tx).Keys !! Created(codec, genesis, txs[..j])
      ensures forall i :: 0 <= i < j ==> txs[i].tx != txs[j].tx && Consumed(txs[i].tx) !! Consumed(txs[j].tx)
    {
      StepIsNew(codec, fees, genesis, txs, j);
    }
  }

  lemma StepIsNew(codec: Codec, fees: FeeParams, genesis: UTxO, txs: seq<TxAux>, j: nat)
    requires fees.Usable() && FreshIds(codec, genesis, txs) && Run(codec, fees, genesis, txs).Some? && j < |txs|
    ensures Produced(codec, txs[j].tx).Keys !! Created(codec, genesis, txs[..j])
    ensures forall i :: 0 <= i < j ==> txs[i].tx != txs[j].tx && Consumed(txs[i].tx) !! Consumed(txs[j].tx)
  {
    hide FreshIds, Created, Produced, Update, Run;
    RunPrefix(codec, fees, genesis, txs, j);
    FreshPrefix(codec, genesis, txs, j);
    RunKeepsLedger(codec, fees, genesis, txs[..j]);
    FreshPrefix(codec, genesis, txs, j + 1);
    assert txs[..j] + [txs[j]] == txs[..j + 1];
    var before := Run(codec, fees, genesis, txs[..j]).value;
    NothingComesBack(codec, genesis, txs[..j], before, txs[j]);
    forall i | 0 <= i < j ensures txs[i].tx != txs[j].tx && Consumed(txs[i].tx) !! Consumed(txs[j].tx) {
      assert txs[..j][i] == txs[i];
      SpentContains(txs[..j], i);
    }
  }

  // ----- Conservation of value ---------------------------------------------------------------------------

  /** Inputs minus outputs: what Byron leaves to the fee pot. */
  ghost function ImplicitFee(aux: TxAux, utxo: UTxO): int {
    Value(Spending(aux.tx, utxo)) - Total(aux.tx.outputs)
  }

  lemma ValueSplits(utxo: UTxO, keys: set<Key>)
    ensures Value(utxo) == Value(utxo - keys) + Value(map key <- utxo | key in keys :: utxo[key])
  {
    var kept, gone := Values(utxo - keys), Values(map key <- utxo | key in keys :: utxo[key]);
    assert Values(utxo) == kept + gone;
    SumUnion(kept, gone);
  }

  lemma ValueJoins(kept: UTxO, added: UTxO)
    requires kept.Keys !! added.Keys
    ensures Value(kept + added) == Value(kept) + Value(added)
  {
    assert Values(kept + added) == Values(kept) + Values(added);
    SumUnion(Values(kept), Values(added));
  }

  lemma {:induction false} EntriesValue(id: Id, outputs: seq<TxOut>)
    ensures Value(Entries(id, outputs)) == Total(outputs)
  {
    if outputs == [] {
      assert Values(Entries(id, outputs)) == map[];
    } else {
      var n := |outputs| - 1;
      EntriesValue(id, outputs[..n]);
      SumPut(Values(Entries(id, outputs[..n])), Key(id, n), outputs[n].value);
      assert Values(Entries(id, outputs)) == Values(Entries(id, outputs[..n]))[Key(id, n) := outputs[n].value];
    }
  }

  /** One update, whatever the ids: value leaves the set as the implicit fee and
      as the entries, if any, that the produced ones overwrite. */
  lemma UpdateValue(codec: Codec, aux: TxAux, utxo: UTxO)
    ensures var left := utxo - Consumed(aux.tx);
            var overwritten := map key <- left | key in Produced(codec, aux.tx).Keys :: left[key];
            Value(Update(codec, utxo, aux.tx)) == Value(utxo) - ImplicitFee(aux, utxo) - Value(overwritten)
  {
    hide Value;
    var produced, left := Produced(codec, aux.tx), utxo - Consumed(aux.tx);
    ValueSplits(utxo, Consumed(aux.tx));
    assert Spending(aux.tx, utxo) == map key <- utxo | key in Consumed(aux.tx) :: utxo[key];
    ValueSplits(left, produced.Keys);
    ValueJoins(left - produced.Keys, produced);
    assert left + produced == (left - produced.Keys) + produced;
    EntriesValue(codec.txId(aux.tx), aux.tx.outputs);
  }

  /** The implicit fees collected along a run. */
  ghost function Fees(codec: Codec, fees: FeeParams, genesis: UTxO, txs: seq<TxAux>): int
    requires fees.Usable() && Run(codec, fees, genesis, txs).Some?
  {
    if txs == [] then 0
    else
      var n := |txs| - 1;
      Fees(codec, fees, genesis, txs[..n]) + ImplicitFee(txs[n], Run(codec, fees, genesis, txs[..n]).value)
  }

  lemma UpdateConserves(codec: Codec, aux: TxAux, utxo: UTxO)
    requires Produced(codec, aux.tx).Keys !! utxo.Keys
    ensures Value(Update(codec, utxo, aux.tx)) == Value(utxo) - ImplicitFee(aux, utxo)
  {
    var left := utxo - Consumed(aux.tx);
    var overwritten := map key <- left | key in Produced(codec, aux.tx).Keys :: left[key];
    assert overwritten == map[] && Values(overwritten) == map[];
    UpdateValue(codec, aux, utxo);
  }

  /** Along every accepted run, the value in the set and the fees collected add
      up to the genesis value, and every fee is at least the minimum. */
  lemma {:induction false} ValueIsConserved(codec: Codec, fees: FeeParams, genesis: UTxO, txs: seq<TxAux>)
    requires fees.Usable() && FreshIds(codec, genesis, txs) && Run(codec, fees, genesis, txs).Some?
    ensures Value(Run(codec, fees, genesis, txs).value) + Fees(codec, fees, genesis, txs) == Value(genesis)
    ensures forall i :: 0 <= i < |txs| ==>
              Run(codec, fees, genesis, txs[..i]).Some?
              && ImplicitFee(txs[i], Run(codec, fees, genesis, txs[..i]).value) >= MinFee(fees, codec.size(txs[i]))
  {
    hide FreshIds, Update, Value, Spent, Created;
    if txs != [] {
      var n := |txs| - 1;
      RunPrefix(codec, fees, genesis, txs, n);
      FreshPrefix(codec, genesis, txs, n);
      ValueIsConserved(codec, fees, genesis, txs[..n]);
      var before := Run(codec, fees, genesis, txs[..n]).value;
      StepIsNew(codec, fees, genesis, txs, n);
      RunKeepsLedger(codec, fees, genesis, txs[..n]);
      UpdateConserves(codec, txs[n], before);
      forall i | 0 <= i < |txs|
        ensures Run(codec, fees, genesis, txs[..i]).Some?
        ensures ImplicitFee(txs[i], Run(codec, fees, genesis, txs[..i]).value) >= MinFee(fees, codec.size(txs[i]))
      {
        RunPrefix(codec, fees, genesis, txs, i);
      }
    }
  }

  /** The two together for chains of blocks. */
  lemma ChainSafety(codec: Codec, fees: FeeParams, genesis: UTxO, blocks: seq<seq<TxAux>>)
    requires fees.Usable() && RunChain(codec, fees, genesis, blocks).Some?
    requires FreshIds(codec, genesis, Flatten(blocks))
    ensures var txs, utxo := Flatten(blocks), RunChain(codec, fees, genesis, blocks).value;
            && Run(codec, fees, genesis, txs) == Some(utxo)
            && (forall i, j :: 0 <= i < j < |txs| ==> txs[i].tx != txs[j].tx && Consumed(txs[i].tx) !! Consumed(txs[j].tx))
            && utxo.Keys == Created(codec, genesis, txs) - Spent(txs)
            && Value(utxo) + Fees(codec, fees, genesis, txs) == Value(genesis)
  {
    hide Valid, Update, FreshIds;
    ChainIsRun(codec, fees, genesis, blocks);
    NoReplayNoDoubleSpend(codec, fees, genesis, Flatten(blocks));
    ValueIsConserved(codec, fees, genesis, Flatten(blocks));
  }
}
