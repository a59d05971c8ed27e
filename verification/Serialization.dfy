/** `Utils.Serialize` and `Utils.Parse`: values with big integers and big numbers, carried as JSON. */
module Serialization {
  import opened JsonText
  import opened Values
  import opened Wrappers

  /** What is thrown: a caster cannot read its text, the text is not JSON, a string is written to, a
      big integer is left for JSON, or (`NoText`) nothing is written at all. */
  datatype CastError = CannotConvert(text: string) | SyntaxError | CannotAssign | CannotStringify | NoText

  datatype TypeSerializer<!B, !N> = TypeSerializer(
    checker: Value<B, N> -> bool,
    caster: Value<B, N> -> Result<Value<B, N>, CastError>)

  // ----- which properties are walked -----

  function Find<B, N>(entries: seq<Entry<B, N>>, key: string): (p: Option<nat>)
    ensures p.Some? ==> p.value < |entries| && entries[p.value].key == key
    ensures p.None? ==> forall i | 0 <= i < |entries| :: entries[i].key != key
  {
    if entries == [] then None
    else if entries[0].key == key then Some(0)
    else
      match Find(entries[1..], key)
      case Some(p) => Some(p + 1)
      case None => None
  }

  /** Everything, or the indices below `n`. */
  datatype Walk = All | Indices(n: nat)

  function LengthOf<B, N(!new)>(numbers: Numbers<N>, v: Value<B, N>): Option<nat> {
    if v.Number? then numbers.length(v.n) else None
  }

  /** `forEach` takes an object whose `length` counts something for a list, and walks its indices. */
  function WalkOf<B, N(!new)>(numbers: Numbers<N>, kind: Kind, entries: seq<Entry<B, N>>): Walk {
    if kind == Array then All
    else
      match Find(entries, "length")
      case None => All
      case Some(p) =>
        match LengthOf(numbers, entries[p].value)
        case Some(n) => Indices(n)
        case None => All
  }

  predicate Walked(walk: Walk, key: string) {
    walk.Indices? ==> IsIndex(key, walk.n)
  }

  predicate IsIndex(key: string, n: nat) {
    exists k | 0 <= k < n :: key == Print(k)
  }

  /** Every index walked is there. */
  predicate Full<B, N>(walk: Walk, entries: seq<Entry<B, N>>) {
    walk.Indices? ==> forall k | 0 <= k < walk.n :: HasIndex(entries, k)
  }

  predicate HasIndex<B, N>(entries: seq<Entry<B, N>>, k: nat) {
    Find(entries, Print(k)).Some?
  }

  // ----- the cast -----

  /** The first type whose checker accepts the value. */
  function TypeOf<B, N>(val: Value<B, N>, types: seq<TypeSerializer<B, N>>): Option<TypeSerializer<B, N>> {
    if types == [] then None
    else if types[0].checker(val) then Some(types[0])
    else TypeOf(val, types[1..])
  }

  function CastValue<B, N(!new)>(numbers: Numbers<N>, val: Value<B, N>, types: seq<TypeSerializer<B, N>>)
    : Result<Value<B, N>, CastError>
    decreases val, 1
  {
    match TypeOf(val, types)
    case Some(t) => t.caster(val)
    case None => if val.Container? then DeepTypecast(numbers, val, types) else Success(val)
  }

  function DeepTypecast<B, N(!new)>(numbers: Numbers<N>, obj: Value<B, N>, types: seq<TypeSerializer<B, N>>)
    : Result<Value<B, N>, CastError>
    requires obj.Container?
    decreases obj, 0
  {
    var cast :-
      match WalkOf(numbers, obj.kind, obj.entries)
      case All => CastEntries(numbers, obj.entries, types, |obj.entries|)
      case Indices(n) => CastIndices(numbers, obj.entries, types, n);
    Success(Container(obj.kind, cast))
  }

  function CastEntries<B, N(!new)>(numbers: Numbers<N>, entries: seq<Entry<B, N>>, types: seq<TypeSerializer<B, N>>,
                                   n: nat)
    : (r: Result<seq<Entry<B, N>>, CastError>)
    requires n <= |entries|
    ensures r.Success? ==> |r.value| == n
    decreases entries, 0, n
  {
    if n == 0 then Success([])
    else
      var before :- CastEntries(numbers, entries, types, n - 1);
      var last :- CastValue(numbers, entries[n - 1].value, types);
      Success(before + [Entry(entries[n - 1].key, last)])
  }

  /** The first `n` indices of an object walked by index: one that is not there reads as undefined,
      and is there afterwards (at which place among the keys is not modelled). */
  function CastIndices<B, N(!new)>(numbers: Numbers<N>, entries: seq<Entry<B, N>>, types: seq<TypeSerializer<B, N>>,
                                   n: nat)
    : (r: Result<seq<Entry<B, N>>, CastError>)
    ensures r.Success? ==> |r.value| >= |entries|
    decreases entries, 0, n
  {
    if n == 0 then Success(entries)
    else
      var before :- CastIndices(numbers, entries, types, n - 1);
      match Find(entries, Print(n - 1))
      case Some(p) =>
        var cast :- CastValue(numbers, entries[p].value, types);
        Success(before[p := Entry(entries[p].key, cast)])
      case None =>
        var cast :- CastMissing(types);
        Success(before + [Entry(Print(n - 1), cast)])
  }

  function CastMissing<B, N>(types: seq<TypeSerializer<B, N>>): Result<Value<B, N>, CastError> {
    match TypeOf(Undefined, types)
    case Some(t) => t.caster(Undefined)
    case None => Success(Undefined)
  }

  /** `deepTypecast`: each property walked is cast and written back under its key. */
  method Typecast<B, N(!new)>(numbers: Numbers<N>, obj: Value<B, N>, types: seq<TypeSerializer<B, N>>)
    returns (r: Result<Value<B, N>, CastError>)
    requires obj.Container?
    ensures r == DeepTypecast(numbers, obj, types)
    decreases obj, 1
  {
    match WalkOf(numbers, obj.kind, obj.entries) {
      case All =>
        r := TypecastAll(numbers, obj, types);
      case Indices(n) =>
        r := TypecastIndices(numbers, obj, types, n);
    }
  }

  /** The callback of the loop. */
  method TypecastOne<B, N(!new)>(numbers: Numbers<N>, val: Value<B, N>, types: seq<TypeSerializer<B, N>>)
    returns (cast: Result<Value<B, N>, CastError>)
    ensures cast == CastValue(numbers, val, types)
    decreases val, 2
  {
    match TypeOf(val, types) {
      case Some(t) =>
        cast := t.caster(val);
      case None =>
        if val.Container? {
          cast := Typecast(numbers, val, types);
        } else {
          cast := Success(val);
        }
    }
  }

  method TypecastAll<B, N(!new)>(numbers: Numbers<N>, obj: Value<B, N>, types: seq<TypeSerializer<B, N>>)
    returns (r: Result<Value<B, N>, CastError>)
    requires obj.Container? && WalkOf(numbers, obj.kind, obj.entries) == All
    ensures r == DeepTypecast(numbers, obj, types)
    decreases obj, 0
  {
    var entries := obj.entries;
    for i := 0 to |entries|
      invariant |entries| == |obj.entries|
      invariant CastEntries(numbers, obj.entries, types, i) == Success(entries[..i])
    {
      var cast := TypecastOne(numbers, obj.entries[i].value, types);
      if cast.Failure? {
        CastFailsOnward(numbers, obj.entries, types, i + 1, |obj.entries|);
        return cast;
      }
      entries := entries[i := Entry(obj.entries[i].key, cast.value)];
      assert entries[..i + 1] == entries[..i] + [entries[i]];
    }
    assert entries[..|entries|] == entries;
    return Success(Container(obj.kind, entries));
  }

  /** No earlier step writes under the key of a later one. */
  method TypecastIndices<B, N(!new)>(numbers: Numbers<N>, obj: Value<B, N>, types: seq<TypeSerializer<B, N>>, n: nat)
    returns (r: Result<Value<B, N>, CastError>)
    requires obj.Container? && WalkOf(numbers, obj.kind, obj.entries) == Indices(n)
    ensures r == DeepTypecast(numbers, obj, types)
    decreases obj, 0
  {
    var entries := obj.entries;
    for k := 0 to n
      invariant |entries| >= |obj.entries|
      invariant CastIndices(numbers, obj.entries, types, k) == Success(entries)
    {
      var cast;
      match Find(obj.entries, Print(k)) {
        case Some(p) =>
          cast := TypecastOne(numbers, obj.entries[p].value, types);
          entries := if cast.Success? then entries[p := Entry(obj.entries[p].key, cast.value)] else entries;
        case None =>
          cast := CastMissing(types);
          entries := if cast.Success? then entries + [Entry(Print(k), cast.value)] else entries;
      }
      if cast.Failure? {
        CastIndicesFail(numbers, obj.entries, types, k + 1, n, cast.error);
        return cast;
      }
    }
    return Success(Container(obj.kind, entries));
  }

  lemma {:induction false} CastFailsOnward<B, N(!new)>(numbers: Numbers<N>, entries: seq<Entry<B, N>>,
                                                       types: seq<TypeSerializer<B, N>>, i: nat, n: nat)
    requires i <= n <= |entries| && CastEntries(numbers, entries, types, i).Failure?
    ensures CastEntries(numbers, entries, types, n) == CastEntries(numbers, entries, types, i)
    decreases n
  {
    if i < n {
      CastFailsOnward(numbers, entries, types, i, n - 1);
    }
  }

  lemma {:induction false} CastIndicesFail<B, N(!new)>(numbers: Numbers<N>, entries: seq<Entry<B, N>>,
                                                       types: seq<TypeSerializer<B, N>>, i: nat, n: nat,
                                                       error: CastError)
    requires i <= n && CastIndices(numbers, entries, types, i) == Failure(error)
    ensures CastIndices(numbers, entries, types, n) == Failure(error)
    decreases n - i
  {
    if i < n {
      NextIndexFails(numbers, entries, types, i, error);
      CastIndicesFail(numbers, entries, types, i + 1, n, error);
    }
  }

  lemma NextIndexFails<B, N(!new)>(numbers: Numbers<N>, entries: seq<Entry<B, N>>, types: seq<TypeSerializer<B, N>>,
                                   n: nat, error: CastError)
    requires CastIndices(numbers, entries, types, n) == Failure(error)
    ensures CastIndices(numbers, entries, types, n + 1) == Failure(error)
  {
  }

  // ----- what a cast does to each entry -----

  /** The entries walked are cast, the others are as they were; only what was missing is new. */
  ghost predicate IsCast<B, N(!new)>(numbers: Numbers<N>, walk: Walk, entries: seq<Entry<B, N>>,
                                     types: seq<TypeSerializer<B, N>>, r: seq<Entry<B, N>>)
  {
    && |entries| <= |r| && (|r| == |entries| <==> Full(walk, entries))
    && (forall i | 0 <= i < |entries| :: EntryCast(numbers, walk, entries[i], types, r[i]))
    && (forall i | |entries| <= i < |r| :: CastMissing(types) == Success(r[i].value))
  }

  ghost predicate EntryCast<B, N(!new)>(numbers: Numbers<N>, walk: Walk, entry: Entry<B, N>,
                                        types: seq<TypeSerializer<B, N>>, r: Entry<B, N>)
  {
    && r.key == entry.key
    && if Walked(walk, entry.key) then CastValue(numbers, entry.value, types) == Success(r.value)
       else r.value == entry.value
  }

  ghost predicate AllCast<B, N(!new)>(numbers: Numbers<N>, walk: Walk, entries: seq<Entry<B, N>>,
                                      types: seq<TypeSerializer<B, N>>)
  {
    forall i | 0 <= i < |entries| && Walked(walk, entries[i].key) ::
      CastValue(numbers, entries[i].value, types).Success?
  }

  lemma {:induction false} EntriesCast<B, N(!new)>(numbers: Numbers<N>, entries: seq<Entry<B, N>>,
                                                   types: seq<TypeSerializer<B, N>>, n: nat)
    requires n <= |entries|
    ensures CastEntries(numbers, entries, types, n).Success? <==>
            forall i | 0 <= i < n :: CastValue(numbers, entries[i].value, types).Success?
    ensures CastEntries(numbers, entries, types, n).Success? ==>
              forall i | 0 <= i < n :: EntryCast(numbers, All, entries[i], types,
                                                 CastEntries(numbers, entries, types, n).value[i])
  {
    if n > 0 {
      EntriesCast(numbers, entries, types, n - 1);
    }
  }

  lemma PrintApart(i: nat, j: nat)
    requires Print(i) == Print(j)
    ensures i == j
  {
    PrintRead(i);
    PrintRead(j);
  }

  lemma FullNext<B, N>(entries: seq<Entry<B, N>>, n: nat)
    ensures Full(Indices(n + 1), entries) <==> Full(Indices(n), entries) && HasIndex(entries, n)
  {
    if Full(Indices(n + 1), entries) {
      forall k | 0 <= k < n
        ensures HasIndex(entries, k)
      {
      }
      assert HasIndex(entries, n);
    }
  }

  /** Indices below `n` and the next one. */
  lemma NextIndex(key: string, n: nat)
    ensures IsIndex(key, n + 1) <==> IsIndex(key, n) || key == Print(n)
  {
    if key == Print(n) {
      assert 0 <= n < n + 1;
    }
  }

  lemma {:induction false} IndicesCast<B, N(!new)>(numbers: Numbers<N>, entries: seq<Entry<B, N>>,
                                                   types: seq<TypeSerializer<B, N>>, n: nat)
    requires ProperKeys(Record, entries) && CastMissing(types).Success?
    ensures CastIndices(numbers, entries, types, n).Success? <==> AllCast(numbers, Indices(n), entries, types)
    ensures CastIndices(numbers, entries, types, n).Success? ==>
              IsCast(numbers, Indices(n), entries, types, CastIndices(numbers, entries, types, n).value)
  {
    if n > 0 {
      var k := n - 1;
      IndicesCast(numbers, entries, types, k);
      NextIndexCast(numbers, entries, types, k, CastIndices(numbers, entries, types, k),
                    CastIndices(numbers, entries, types, k + 1));
    }
  }

  /** The step of `CastIndices`. */
  lemma IndexStep<B, N(!new)>(numbers: Numbers<N>, entries: seq<Entry<B, N>>, types: seq<TypeSerializer<B, N>>, n: nat,
                              before: seq<Entry<B, N>>)
    requires CastIndices(numbers, entries, types, n) == Success(before) && CastMissing(types).Success?
    ensures |before| >= |entries|
    ensures var after := CastIndices(numbers, entries, types, n + 1);
            match Find(entries, Print(n))
            case Some(p) =>
              var cast := CastValue(numbers, entries[p].value, types);
              if cast.Success? then after == Success(before[p := Entry(entries[p].key, cast.value)]) else after.Failure?
            case None =>
              after == Success(before + [Entry(Print(n), CastMissing(types).value)])
  {
  }

  lemma WalkedNext<B, N>(entries: seq<Entry<B, N>>, n: nat, i: nat)
    requires ProperKeys(Record, entries) && i < |entries|
    ensures Walked(Indices(n + 1), entries[i].key) <==>
            Walked(Indices(n), entries[i].key) || Find(entries, Print(n)) == Some(i)
    ensures Find(entries, Print(n)) == Some(i) ==> !Walked(Indices(n), entries[i].key)
  {
    NextIndex(entries[i].key, n);
    if Find(entries, Print(n)) == Some(i) && IsIndex(entries[i].key, n) {
      var k :| 0 <= k < n && entries[i].key == Print(k);
      PrintApart(k, n);
    }
  }

  lemma NextIndexCast<B, N(!new)>(numbers: Numbers<N>, entries: seq<Entry<B, N>>, types: seq<TypeSerializer<B, N>>,
                                  n: nat, before: Result<seq<Entry<B, N>>, CastError>,
                                  after: Result<seq<Entry<B, N>>, CastError>)
    requires ProperKeys(Record, entries) && CastMissing(types).Success?
    requires before == CastIndices(numbers, entries, types, n) && after == CastIndices(numbers, entries, types, n + 1)
    requires before.Success? <==> AllCast(numbers, Indices(n), entries, types)
    requires before.Success? ==> IsCast(numbers, Indices(n), entries, types, before.value)
    ensures after.Success? <==> AllCast(numbers, Indices(n + 1), entries, types)
    ensures after.Success? ==> IsCast(numbers, Indices(n + 1), entries, types, after.value)
  {
    forall i | 0 <= i < |entries| {
      WalkedNext(entries, n, i);
    }
    if before.Failure? {
      NextIndexFails(numbers, entries, types, n, before.error);
    } else {
      IndexStep(numbers, entries, types, n, before.value);
      AllCastNext(numbers, entries, types, n);
      if after.Success? {
        if Find(entries, Print(n)).Some? {
          UpdateIsCast(numbers, entries, types, n, before.value, Find(entries, Print(n)).value, after.value);
        } else {
          AppendIsCast(numbers, entries, types, n, before.value, after.value);
        }
      }
    }
  }

  lemma AllCastNext<B, N(!new)>(numbers: Numbers<N>, entries: seq<Entry<B, N>>, types: seq<TypeSerializer<B, N>>,
                                n: nat)
    requires ProperKeys(Record, entries)
    ensures AllCast(numbers, Indices(n + 1), entries, types) <==>
            AllCast(numbers, Indices(n), entries, types)
            && (Find(entries, Print(n)).Some? ==>
                  CastValue(numbers, entries[Find(entries, Print(n)).value].value, types).Success?)
  {
    forall i | 0 <= i < |entries| {
      WalkedNext(entries, n, i);
    }
  }

  lemma UpdateIsCast<B, N(!new)>(numbers: Numbers<N>, entries: seq<Entry<B, N>>, types: seq<TypeSerializer<B, N>>,
                                 n: nat, before: seq<Entry<B, N>>, p: nat, after: seq<Entry<B, N>>)
    requires ProperKeys(Record, entries) && IsCast(numbers, Indices(n), entries, types, before)
    requires Find(entries, Print(n)) == Some(p) && CastValue(numbers, entries[p].value, types).Success?
    requires after == before[p := Entry(entries[p].key, CastValue(numbers, entries[p].value, types).value)]
    ensures IsCast(numbers, Indices(n + 1), entries, types, after)
  {
    FullNext(entries, n);
    forall i | 0 <= i < |entries|
      ensures EntryCast(numbers, Indices(n + 1), entries[i], types, after[i])
    {
      WalkedNext(entries, n, i);
      assert EntryCast(numbers, Indices(n), entries[i], types, before[i]);
    }
  }

  lemma AppendIsCast<B, N(!new)>(numbers: Numbers<N>, entries: seq<Entry<B, N>>, types: seq<TypeSerializer<B, N>>,
                                 n: nat, before: seq<Entry<B, N>>, after: seq<Entry<B, N>>)
    requires ProperKeys(Record, entries) && IsCast(numbers, Indices(n), entries, types, before)
    requires Find(entries, Print(n)).None? && CastMissing(types).Success?
    requires after == before + [Entry(Print(n), CastMissing(types).value)]
    ensures IsCast(numbers, Indices(n + 1), entries, types, after)
  {
    FullNext(entries, n);
    forall i | 0 <= i < |entries|
      ensures EntryCast(numbers, Indices(n + 1), entries[i], types, after[i])
    {
      WalkedNext(entries, n, i);
      assert EntryCast(numbers, Indices(n), entries[i], types, before[i]);
    }
  }

  /** What the cast of an object is, entry by entry. */
  lemma CastIs<B, N(!new)>(numbers: Numbers<N>, obj: Value<B, N>, types: seq<TypeSerializer<B, N>>)
    requires obj.Container? && ProperKeys(obj.kind, obj.entries) && CastMissing(types).Success?
    ensures var walk, cast := WalkOf(numbers, obj.kind, obj.entries), DeepTypecast(numbers, obj, types);
            && (cast.Success? <==> AllCast(numbers, walk, obj.entries, types))
            && (cast.Success? ==> cast.value.Container? && cast.value.kind == obj.kind
                                  && IsCast(numbers, walk, obj.entries, types, cast.value.entries))
  {
    match WalkOf(numbers, obj.kind, obj.entries)
    case All => EntriesCast(numbers, obj.entries, types, |obj.entries|);
    case Indices(n) => IndicesCast(numbers, obj.entries, types, n);
  }

  // ----- the two directions -----

  const PREFIX_BIG_INT := "bi@"
  const PREFIX_BIG_NUMBER := "bn@"

  /** The loop of `stringCheckerBuilder`: character by character, a short string fails. */
  predicate HasPrefix(prefix: string, s: string) {
    |prefix| <= |s| && s[..|prefix|] == prefix
  }

  /** How `BigNumber` prints itself and reads what it printed. */
  datatype BigNumbers<!B(!new)> = BigNumbers(show: B -> string, read: string -> B) {
    ghost predicate Faithful() {
      forall b {:trigger show(b)} :: read(show(b)) == b
    }
  }

  function BigIntToText<B, N>(v: Value<B, N>): Result<Value<B, N>, CastError> {
    if v.BigInt? then Success(Text(PREFIX_BIG_INT + Print(v.i))) else Success(v)
  }

  function BigNumberToText<B(!new), N(!new)>(nums: BigNumbers<B>, v: Value<B, N>): Result<Value<B, N>, CastError> {
    if v.BigNumber? then Success(Text(PREFIX_BIG_NUMBER + nums.show(v.bn))) else Success(v)
  }

  function TextToBigInt<B, N>(v: Value<B, N>): Result<Value<B, N>, CastError> {
    if v.Text? && HasPrefix(PREFIX_BIG_INT, v.s) then
      match ReadInt(v.s[|PREFIX_BIG_INT|..])
      case Some(i) => Success(BigInt(i))
      case None => Failure(CannotConvert(v.s[|PREFIX_BIG_INT|..]))
    else Success(v)
  }

  function TextToBigNumber<B(!new), N(!new)>(nums: BigNumbers<B>, v: Value<B, N>): Result<Value<B, N>, CastError> {
    if v.Text? && HasPrefix(PREFIX_BIG_NUMBER, v.s) then
      Success(BigNumber(nums.read(v.s[|PREFIX_BIG_NUMBER|..])))
    else Success(v)
  }

  /** The types `Serialize` casts. */
  function ToText<B(!new), N(!new)>(nums: BigNumbers<B>): seq<TypeSerializer<B, N>> {
    [TypeSerializer((v: Value<B, N>) => v.BigInt?, (v: Value<B, N>) => BigIntToText(v)),
     TypeSerializer((v: Value<B, N>) => v.BigNumber?, (v: Value<B, N>) => BigNumberToText(nums, v))]
  }

  /** The types `Parse` casts. */
  function FromText<B(!new), N(!new)>(nums: BigNumbers<B>): seq<TypeSerializer<B, N>> {
    [TypeSerializer((v: Value<B, N>) => v.Text? && HasPrefix(PREFIX_BIG_INT, v.s), (v: Value<B, N>) => TextToBigInt(v)),
     TypeSerializer((v: Value<B, N>) => v.Text? && HasPrefix(PREFIX_BIG_NUMBER, v.s),
                    (v: Value<B, N>) => TextToBigNumber(nums, v))]
  }

  lemma TypeOfTwo<B, N>(v: Value<B, N>, types: seq<TypeSerializer<B, N>>)
    requires |types| == 2
    ensures TypeOf(v, types) ==
            if types[0].checker(v) then Some(types[0]) else if types[1].checker(v) then Some(types[1]) else None
  {
    assert TypeOf(v, types) == if types[0].checker(v) then Some(types[0]) else TypeOf(v, types[1..]);
    var rest := types[1..];
    assert rest[0] == types[1] && rest[1..] == [];
    assert TypeOf(v, rest) == if rest[0].checker(v) then Some(rest[0]) else TypeOf(v, rest[1..]);
  }

  lemma ToTextLeaf<B(!new), N(!new)>(nums: BigNumbers<B>, numbers: Numbers<N>, v: Value<B, N>)
    requires !v.Container?
    ensures CastValue(numbers, v, ToText(nums)) ==
            match v
            case BigInt(i) => Success(Text(PREFIX_BIG_INT + Print(i)))
            case BigNumber(b) => Success(Text(PREFIX_BIG_NUMBER + nums.show(b)))
            case _ => Success(v)
  {
    TypeOfTwo(v, ToText(nums));
  }

  lemma FromTextLeaf<B(!new), N(!new)>(nums: BigNumbers<B>, numbers: Numbers<N>, v: Value<B, N>)
    requires !v.Container?
    ensures CastValue(numbers, v, FromText(nums)) ==
            if v.Text? && HasPrefix(PREFIX_BIG_INT, v.s) then TextToBigInt(v) else TextToBigNumber(nums, v)
  {
    TypeOfTwo(v, FromText(nums));
  }

  lemma ContainerHasNoType<B(!new), N(!new)>(nums: BigNumbers<B>, numbers: Numbers<N>, v: Value<B, N>)
    requires v.Container?
    ensures CastValue(numbers, v, ToText(nums)) == DeepTypecast(numbers, v, ToText(nums))
    ensures CastValue(numbers, v, FromText(nums)) == DeepTypecast(numbers, v, FromText(nums))
  {
    TypeOfTwo(v, ToText(nums));
    TypeOfTwo(v, FromText(nums));
  }

  lemma MissingHasNoType<B(!new), N(!new)>(nums: BigNumbers<B>)
    ensures CastMissing<B, N>(ToText(nums)) == Success(Undefined)
    ensures CastMissing<B, N>(FromText(nums)) == Success(Undefined)
  {
    TypeOfTwo<B, N>(Undefined, ToText(nums));
    TypeOfTwo<B, N>(Undefined, FromText(nums));
  }

  // ----- what `JSON.stringify` takes from a value -----

  /** A big number by its text (minus zero aside, `toJSON` prints what `toString` does); a big integer
      throws; a property that is undefined is dropped, an element that is becomes null. */
  function ToJson<B(!new), N(!new)>(nums: BigNumbers<B>, v: Value<B, N>): Result<Value<B, N>, CastError>
    decreases v, 1
  {
    match v
    case BigInt(_) => Failure(CannotStringify)
    case BigNumber(b) => Success(Text(nums.show(b)))
    case Undefined => Success(Null)
    case Container(kind, entries) =>
      var es :- ToJsonEntries(nums, kind, entries, |entries|);
      Success(Container(kind, es))
    case _ => Success(v)
  }

  function ToJsonEntries<B(!new), N(!new)>(nums: BigNumbers<B>, kind: Kind, entries: seq<Entry<B, N>>, n: nat)
    : Result<seq<Entry<B, N>>, CastError>
    requires n <= |entries|
    decreases entries, 0, n
  {
    if n == 0 then Success([])
    else
      var before :- ToJsonEntries(nums, kind, entries, n - 1);
      if kind == Record && entries[n - 1].value.Undefined? then Success(before)
      else
        var last :- ToJson(nums, entries[n - 1].value);
        Success(before + [Entry(entries[n - 1].key, last)])
  }

  ghost predicate EntryJson<B(!new), N(!new)>(nums: BigNumbers<B>, entry: Entry<B, N>, r: Entry<B, N>) {
    r.key == entry.key && ToJson(nums, entry.value) == Success(r.value)
  }

  /** Of `m` defined entries and undefined properties after them, the first `m` are left. */
  lemma {:induction false} EntriesJson<B(!new), N(!new)>(nums: BigNumbers<B>, kind: Kind, entries: seq<Entry<B, N>>,
                                                         m: nat, n: nat)
    requires n <= |entries|
    requires forall i | 0 <= i < |entries| :: entries[i].value.Undefined? <==> m <= i
    requires kind == Array ==> |entries| <= m
    ensures var r := ToJsonEntries(nums, kind, entries, n);
            && (r.Success? <==> forall i | 0 <= i < n && i < m :: ToJson(nums, entries[i].value).Success?)
            && (r.Success? ==> |r.value| == (if n < m then n else m)
                               && forall i | 0 <= i < |r.value| :: EntryJson(nums, entries[i], r.value[i]))
  {
    if n > 0 {
      EntriesJson(nums, kind, entries, m, n - 1);
    }
  }

  // ----- the round trip -----

  predicate NoBigInt<B, N>(v: Value<B, N>) {
    match v
    case BigInt(_) => false
    case Container(_, entries) => forall i | 0 <= i < |entries| :: NoBigInt(entries[i].value)
    case _ => true
  }

  /** No big integer is left where the cast does not go. */
  predicate Writable<B, N(!new)>(numbers: Numbers<N>, v: Value<B, N>) {
    match v
    case Container(kind, entries) =>
      var walk := WalkOf(numbers, kind, entries);
      forall i | 0 <= i < |entries| ::
        if Walked(walk, entries[i].key) then Writable(numbers, entries[i].value) else NoBigInt(entries[i].value)
    case _ => true
  }

  /** No plain text where the cast goes looks like the image of a big integer or a big number; where
      it does not go there is only what JSON can carry; and no index it goes to is missing. */
  predicate Clean<B, N(!new)>(numbers: Numbers<N>, v: Value<B, N>) {
    match v
    case Text(s) => !HasPrefix(PREFIX_BIG_INT, s) && !HasPrefix(PREFIX_BIG_NUMBER, s)
    case Container(kind, entries) =>
      var walk := WalkOf(numbers, kind, entries);
      && Full(walk, entries)
      && forall i | 0 <= i < |entries| ::
           if Walked(walk, entries[i].key) then Clean(numbers, entries[i].value) else IsJson(entries[i].value)
    case _ => true
  }

  /** A value that is not walked is written as it is, or not. */
  lemma {:induction false} Untouched<B(!new), N(!new)>(nums: BigNumbers<B>, numbers: Numbers<N>, v: Value<B, N>)
    requires WellFormed(v)
    ensures ToJson(nums, v).Success? <==> NoBigInt(v)
    ensures ToJson(nums, v).Success? ==>
              var j := ToJson(nums, v).value;
              IsJson(j) && (j == v <==> IsJson(v)) && LengthOf(numbers, j) == LengthOf(numbers, v)
    ensures IsJson(v) ==> NoBigInt(v)
  {
    if v.Container? {
      var n := |v.entries|;
      forall i | 0 <= i < n {
        Untouched(nums, numbers, v.entries[i].value);
      }
      EntriesJson(nums, v.kind, v.entries, n, n);
    }
  }

  /** What is said of a value, cast to text, written and cast back. */
  ghost predicate GoesThere<B(!new), N(!new)>(nums: BigNumbers<B>, numbers: Numbers<N>, v: Value<B, N>) {
    var cast := CastValue(numbers, v, ToText(nums));
    && cast.Success? && !cast.value.Undefined?
    && var json := ToJson(nums, cast.value);
       && (json.Success? <==> Writable(numbers, v))
       && (json.Success? ==> IsJson(json.value) && LengthOf(numbers, json.value) == LengthOf(numbers, v))
  }

  ghost predicate ComesBack<B(!new), N(!new)>(nums: BigNumbers<B>, numbers: Numbers<N>, v: Value<B, N>)
    requires GoesThere(nums, numbers, v)
  {
    var json := ToJson(nums, CastValue(numbers, v, ToText(nums)).value);
    && (Clean(numbers, v) ==> Writable(numbers, v))
    && (json.Success? ==> (CastValue(numbers, json.value, FromText(nums)) == Success(v) <==> Clean(numbers, v)))
  }

  lemma {:induction false} SameFind<B, N>(a: seq<Entry<B, N>>, b: seq<Entry<B, N>>, key: string)
    requires |a| == |b| && forall i | 0 <= i < |a| :: a[i].key == b[i].key
    ensures Find(a, key) == Find(b, key)
  {
    if a != [] {
      SameFind(a[1..], b[1..], key);
    }
  }

  /** What is written is walked as what was cast. */
  lemma SameWalk<B, N(!new)>(numbers: Numbers<N>, kind: Kind, a: seq<Entry<B, N>>, b: seq<Entry<B, N>>)
    requires |a| == |b| && forall i | 0 <= i < |a| :: a[i].key == b[i].key
    requires forall i | 0 <= i < |a| :: LengthOf(numbers, a[i].value) == LengthOf(numbers, b[i].value)
    ensures WalkOf(numbers, kind, a) == WalkOf(numbers, kind, b)
    ensures Full(WalkOf(numbers, kind, a), a) <==> Full(WalkOf(numbers, kind, a), b)
  {
    SameFind(a, b, "length");
    forall k: nat
      ensures HasIndex(a, k) <==> HasIndex(b, k)
    {
      SameFind(a, b, Print(k));
    }
  }

  /** What is written for an entry: the cast of it if the walk goes there, else the entry as it is. */
  ghost predicate EntrySent<B(!new), N(!new)>(nums: BigNumbers<B>, numbers: Numbers<N>, walk: Walk, entry: Entry<B, N>,
                                              w: Entry<B, N>)
    requires GoesThere(nums, numbers, entry.value)
  {
    && w.key == entry.key && IsJson(w.value) && LengthOf(numbers, w.value) == LengthOf(numbers, entry.value)
    && Success(w.value) == ToJson(nums, if Walked(walk, entry.key)
                                        then CastValue(numbers, entry.value, ToText(nums)).value else entry.value)
  }

  ghost predicate IsSent<B(!new), N(!new)>(nums: BigNumbers<B>, numbers: Numbers<N>, v: Value<B, N>, w: Value<B, N>)
    requires v.Container? && forall i | 0 <= i < |v.entries| :: GoesThere(nums, numbers, v.entries[i].value)
  {
    && w.Container? && w.kind == v.kind && |w.entries| == |v.entries|
    && forall i | 0 <= i < |v.entries| ::
         EntrySent(nums, numbers, WalkOf(numbers, v.kind, v.entries), v.entries[i], w.entries[i])
  }

  /** One entry, cast or not, and written. */
  lemma EntryGoes<B(!new), N(!new)>(nums: BigNumbers<B>, numbers: Numbers<N>, walk: Walk, entry: Entry<B, N>,
                                    e: Entry<B, N>)
    requires WellFormed(entry.value) && GoesThere(nums, numbers, entry.value)
    requires EntryCast(numbers, walk, entry, ToText(nums), e)
    ensures !e.value.Undefined?
    ensures ToJson(nums, e.value).Success? <==>
            if Walked(walk, entry.key) then Writable(numbers, entry.value) else NoBigInt(entry.value)
    ensures ToJson(nums, e.value).Success? ==>
              EntrySent(nums, numbers, walk, entry, Entry(e.key, ToJson(nums, e.value).value))
  {
    Untouched(nums, numbers, entry.value);
  }

  /** The entries, cast or not, and written. */
  lemma EntriesGo<B(!new), N(!new)>(nums: BigNumbers<B>, numbers: Numbers<N>, v: Value<B, N>, e: seq<Entry<B, N>>)
    requires v.Container? && WellFormed(v)
    requires forall i | 0 <= i < |v.entries| :: GoesThere(nums, numbers, v.entries[i].value)
    requires IsCast(numbers, WalkOf(numbers, v.kind, v.entries), v.entries, ToText(nums), e)
    ensures var json := ToJson(nums, Container(v.kind, e));
            && (json.Success? <==> Writable(numbers, v))
            && (json.Success? ==> IsSent(nums, numbers, v, json.value))
  {
    var walk, m := WalkOf(numbers, v.kind, v.entries), |v.entries|;
    MissingHasNoType<B, N>(nums);
    forall i | 0 <= i < m {
      EntryGoes(nums, numbers, walk, v.entries[i], e[i]);
    }
    EntriesJson(nums, v.kind, e, m, |e|);
  }

  lemma SentIsJson<B(!new), N(!new)>(nums: BigNumbers<B>, numbers: Numbers<N>, v: Value<B, N>, w: Value<B, N>)
    requires v.Container? && WellFormed(v)
    requires forall i | 0 <= i < |v.entries| :: GoesThere(nums, numbers, v.entries[i].value)
    requires IsSent(nums, numbers, v, w)
    ensures IsJson(w)
  {
  }

  lemma ContainerGoes<B(!new), N(!new)>(nums: BigNumbers<B>, numbers: Numbers<N>, v: Value<B, N>)
    requires v.Container? && WellFormed(v)
    requires forall i | 0 <= i < |v.entries| :: GoesThere(nums, numbers, v.entries[i].value)
    ensures GoesThere(nums, numbers, v)
    ensures Writable(numbers, v) ==>
              IsSent(nums, numbers, v, ToJson(nums, CastValue(numbers, v, ToText(nums)).value).value)
  {
    ContainerHasNoType(nums, numbers, v);
    MissingHasNoType<B, N>(nums);
    CastIs(numbers, v, ToText(nums));
    var e := DeepTypecast(numbers, v, ToText(nums)).value;
    EntriesGo(nums, numbers, v, e.entries);
    if ToJson(nums, e).Success? {
      SentIsJson(nums, numbers, v, ToJson(nums, e).value);
    }
  }

  /** A cast gives the entries wanted exactly when nothing is missing and each entry is as wanted. */
  lemma CastEquals<B, N(!new)>(numbers: Numbers<N>, walk: Walk, a: seq<Entry<B, N>>, types: seq<TypeSerializer<B, N>>,
                               b: seq<Entry<B, N>>, r: Result<Value<B, N>, CastError>, kind: Kind)
    requires |a| == |b| && (r.Success? <==> AllCast(numbers, walk, a, types))
    requires r.Success? ==> r.value.Container? && r.value.kind == kind
                            && IsCast(numbers, walk, a, types, r.value.entries)
    ensures r == Success(Container(kind, b)) <==>
            Full(walk, a) && forall i | 0 <= i < |a| :: EntryCast(numbers, walk, a[i], types, b[i])
  {
    if Full(walk, a) && forall i | 0 <= i < |a| :: EntryCast(numbers, walk, a[i], types, b[i]) {
      forall i | 0 <= i < |a|
        ensures r.value.entries[i] == b[i]
      {
        assert EntryCast(numbers, walk, a[i], types, r.value.entries[i]);
      }
      assert r.value.entries == b;
    }
  }

  lemma EntryComes<B(!new), N(!new)>(nums: BigNumbers<B>, numbers: Numbers<N>, walk: Walk, entry: Entry<B, N>,
                                     w: Entry<B, N>)
    requires WellFormed(entry.value) && GoesThere(nums, numbers, entry.value) && ComesBack(nums, numbers, entry.value)
    requires EntrySent(nums, numbers, walk, entry, w)
    ensures EntryCast(numbers, walk, w, FromText(nums), entry) <==>
            if Walked(walk, entry.key) then Clean(numbers, entry.value) else IsJson(entry.value)
  {
    Untouched(nums, numbers, entry.value);
  }

  lemma ContainerComes<B(!new), N(!new)>(nums: BigNumbers<B>, numbers: Numbers<N>, v: Value<B, N>, w: Value<B, N>)
    requires v.Container? && WellFormed(v)
    requires forall i | 0 <= i < |v.entries| :: GoesThere(nums, numbers, v.entries[i].value)
    requires forall i | 0 <= i < |v.entries| :: ComesBack(nums, numbers, v.entries[i].value)
    requires IsSent(nums, numbers, v, w)
    ensures CastValue(numbers, w, FromText(nums)) == Success(v) <==> Clean(numbers, v)
  {
    var walk := WalkOf(numbers, v.kind, v.entries);
    SameWalk(numbers, v.kind, v.entries, w.entries);
    ContainerHasNoType(nums, numbers, w);
    MissingHasNoType<B, N>(nums);
    CastIs(numbers, w, FromText(nums));
    CastEquals(numbers, walk, w.entries, FromText(nums), v.entries, DeepTypecast(numbers, w, FromText(nums)), v.kind);
    forall i | 0 <= i < |v.entries| {
      EntryComes(nums, numbers, walk, v.entries[i], w.entries[i]);
    }
  }

  lemma CleanIsWritable<B(!new), N(!new)>(nums: BigNumbers<B>, numbers: Numbers<N>, v: Value<B, N>)
    requires v.Container? && WellFormed(v)
    requires forall i | 0 <= i < |v.entries| ::
               Clean(numbers, v.entries[i].value) ==> Writable(numbers, v.entries[i].value)
    ensures Clean(numbers, v) ==> Writable(numbers, v)
  {
    forall i | 0 <= i < |v.entries| {
      Untouched(nums, numbers, v.entries[i].value);
    }
  }

  lemma LeafThereAndBack<B(!new), N(!new)>(nums: BigNumbers<B>, numbers: Numbers<N>, v: Value<B, N>)
    requires nums.Faithful() && !v.Container? && WellFormed(v)
    ensures GoesThere(nums, numbers, v) && ComesBack(nums, numbers, v)
  {
    ToTextLeaf(nums, numbers, v);
    var e := CastValue(numbers, v, ToText(nums)).value;
    FromTextLeaf(nums, numbers, e);
    if v.BigInt? {
      PrintRead(v.i);
      assert (PREFIX_BIG_INT + Print(v.i))[3..] == Print(v.i);
    } else if v.BigNumber? {
      assert e.s[0] == 'b' && e.s[1] == 'n';
      assert (PREFIX_BIG_NUMBER + nums.show(v.bn))[3..] == nums.show(v.bn);
    }
  }

  /** Casting to text always succeeds; what it leaves can be written exactly when no big integer is
      left where it does not go; and casting back what was written gives the value exactly when it
      is clean. */
  lemma {:induction false} CastThereAndBack<B(!new), N(!new)>(nums: BigNumbers<B>, numbers: Numbers<N>,
                                                              v: Value<B, N>)
    requires nums.Faithful() && WellFormed(v)
    ensures GoesThere(nums, numbers, v) && ComesBack(nums, numbers, v)
  {
    if v.Container? {
      forall i | 0 <= i < |v.entries|
        ensures GoesThere(nums, numbers, v.entries[i].value) && ComesBack(nums, numbers, v.entries[i].value)
      {
        CastThereAndBack(nums, numbers, v.entries[i].value);
      }
      ContainerGoes(nums, numbers, v);
      CleanIsWritable(nums, numbers, v);
      if Writable(numbers, v) {
        ContainerComes(nums, numbers, v, ToJson(nums, CastValue(numbers, v, ToText(nums)).value).value);
      }
    } else {
      LeafThereAndBack(nums, numbers, v);
    }
  }

  // ----- Serialize and Parse -----

  /** `deepTypecast` of anything: only objects and arrays have properties that can be written; the
      characters of a text cannot. */
  function CastTop<B, N(!new)>(numbers: Numbers<N>, v: Value<B, N>, types: seq<TypeSerializer<B, N>>)
    : Result<Value<B, N>, CastError>
  {
    match v
    case Container(_, _) => DeepTypecast(numbers, v, types)
    case Text(s) => if s == [] then Success(v) else Failure(CannotAssign)
    case _ => Success(v)
  }

  /** `JSON.stringify`. */
  function StringifyTop<B(!new), N(!new)>(nums: BigNumbers<B>, numbers: Numbers<N>, v: Value<B, N>)
    : Result<string, CastError>
  {
    if v.Undefined? then Failure(NoText)
    else
      var json :- ToJson(nums, v);
      Success(Stringify(numbers, json))
  }

  method Serialize<B(!new), N(!new)>(nums: BigNumbers<B>, numbers: Numbers<N>, data: Value<B, N>)
    returns (text: Result<string, CastError>)
    ensures CastTop(numbers, data, ToText(nums)).Failure? ==>
              text == Failure(CastTop(numbers, data, ToText(nums)).error)
    ensures CastTop(numbers, data, ToText(nums)).Success? ==>
              text == StringifyTop(nums, numbers, CastTop(numbers, data, ToText(nums)).value)
  {
    var cast := data;
    if data.Container? {
      cast :- Typecast(numbers, data, ToText(nums));
    } else if data.Text? && data.s != [] {
      return Failure(CannotAssign);
    }
    text := StringifyTop(nums, numbers, cast);
  }

  method Parse<B(!new), N(!new)>(nums: BigNumbers<B>, numbers: Numbers<N>, text: string)
    returns (r: Result<Value<B, N>, CastError>)
    ensures ParseJson<B, N>(numbers, text).None? ==> r == Failure(SyntaxError)
    ensures ParseJson<B, N>(numbers, text).Some? ==>
              r == CastTop(numbers, ParseJson<B, N>(numbers, text).value, FromText(nums))
  {
    var v := ParseJson<B, N>(numbers, text);
    if v.None? {
      return Failure(SyntaxError);
    }
    if v.value.Container? {
      r := Typecast(numbers, v.value, FromText(nums));
    } else if v.value.Text? && v.value.s != [] {
      r := Failure(CannotAssign);
    } else {
      r := Success(v.value);
    }
  }

  /** Standing alone, neither a big integer nor a big number is cast, and a text throws. */
  predicate Castable<B, N>(v: Value<B, N>) {
    match v
    case BigInt(_) => false
    case BigNumber(_) => false
    case Text(s) => s == []
    case _ => true
  }

  /** Serializing fails exactly when a big integer is left where the cast does not go, or a text
      stands alone; and what is serialized is read back as it was exactly when it can stand at the
      top and is clean. */
  method SerializeThenParse<B(!new), N(!new)>(nums: BigNumbers<B>, numbers: Numbers<N>, data: Value<B, N>)
    returns (text: Result<string, CastError>, back: Result<Value<B, N>, CastError>)
    requires nums.Faithful() && numbers.Faithful() && WellFormed(data)
    ensures text.Success? <==> (Castable(data) || data.BigNumber?) && Writable(numbers, data)
    ensures back == Success(data) <==> Castable(data) && Clean(numbers, data)
  {
    text := Serialize(nums, numbers, data);
    CastThereAndBack(nums, numbers, data);
    TopThere(nums, numbers, data);
    if text.Failure? {
      return text, Failure(text.error);
    }
    TopBack(nums, numbers, data, text.value);
    back := Parse(nums, numbers, text.value);
  }

  lemma TopThere<B(!new), N(!new)>(nums: BigNumbers<B>, numbers: Numbers<N>, data: Value<B, N>)
    requires WellFormed(data) && GoesThere(nums, numbers, data)
    ensures CastTop(numbers, data, ToText(nums)).Success? <==> Castable(data) || data.BigInt? || data.BigNumber?
    ensures CastTop(numbers, data, ToText(nums)).Success? ==>
              (StringifyTop(nums, numbers, CastTop(numbers, data, ToText(nums)).value).Success? <==>
               (Castable(data) || data.BigNumber?) && Writable(numbers, data))
  {
    if data.Container? {
      ContainerHasNoType(nums, numbers, data);
    }
  }

  /** The text of a value is read back as what was written, and cast back from there. */
  lemma TopBack<B(!new), N(!new)>(nums: BigNumbers<B>, numbers: Numbers<N>, data: Value<B, N>, text: string)
    requires nums.Faithful() && numbers.Faithful() && WellFormed(data)
    requires GoesThere(nums, numbers, data) && ComesBack(nums, numbers, data)
    requires CastTop(numbers, data, ToText(nums)).Success?
    requires StringifyTop(nums, numbers, CastTop(numbers, data, ToText(nums)).value) == Success(text)
    ensures ParseJson<B, N>(numbers, text).Some?
    ensures CastTop(numbers, ParseJson<B, N>(numbers, text).value, FromText(nums)) == Success(data)
            <==> Castable(data) && Clean(numbers, data)
  {
    if data.Container? {
      ContainerHasNoType(nums, numbers, data);
      var json := ToJson(nums, DeepTypecast(numbers, data, ToText(nums)).value).value;
      JsonThereAndBack(numbers, json);
      ContainerHasNoType(nums, numbers, json);
    } else if data.BigNumber? {
      JsonThereAndBack<B, N>(numbers, Text(nums.show(data.bn)));
    } else {
      JsonThereAndBack(numbers, data);
    }
  }

  /** A `length` that counts something keeps the cast from every key that is not an index: a big
      integer there makes the object impossible to serialize. */
  lemma LengthHidesBigInt<B, N(!new)>(numbers: Numbers<N>, length: N, i: int)
    requires numbers.length(length).Some?
    ensures var data: Value<B, N> := Container(Record, [Entry("length", Number(length)), Entry("supply", BigInt(i))]);
            WellFormed(data) && !Writable(numbers, data)
    ensures var data: Value<B, N> := Container(Record, [Entry("supply", BigInt(i))]); Writable(numbers, data)
  {
    var entries: seq<Entry<B, N>> := [Entry("length", Number(length)), Entry("supply", BigInt(i))];
    assert entries[0].key == "length" && entries[1].key == "supply" && "length"[0] != "supply"[0];
    var n := numbers.length(length).value;
    forall k | 0 <= k < n
      ensures Print(k) != "supply"
    {
      DigitsRead(k);
      assert "supply"[0] == 's';
    }
    assert !Walked(Indices(n), "supply");
    var plain: seq<Entry<B, N>> := [Entry("supply", BigInt(i))];
    assert Find(plain, "length").None?;
  }

  /** Under a `length` of `n` the keys that are walked are the indices below `n`, written in decimal;
      without one, and in an array, every key is. */
  lemma WalkedKeys<B, N(!new)>(numbers: Numbers<N>, kind: Kind, entries: seq<Entry<B, N>>, p: nat, k: nat)
    requires p < |entries| && entries[p].key == "length" && ProperKeys(Record, entries)
    ensures var walk := WalkOf(numbers, Record, entries);
            && (LengthOf(numbers, entries[p].value).Some? ==>
                  (Walked(walk, Print(k)) <==> k < LengthOf(numbers, entries[p].value).value))
            && (LengthOf(numbers, entries[p].value).Some? ==> !Walked(walk, "length"))
            && (LengthOf(numbers, entries[p].value).None? ==> forall key :: Walked(walk, key))
    ensures forall key :: Walked(WalkOf(numbers, Array, entries), key)
  {
    var found := Find(entries, "length");
    assert found.Some? && found.value == p;
    if LengthOf(numbers, entries[p].value).Some? {
      var n := LengthOf(numbers, entries[p].value).value;
      if IsIndex(Print(k), n) {
        var j :| 0 <= j < n && Print(k) == Print(j);
        PrintApart(k, j);
      }
      forall j | 0 <= j < n
        ensures Print(j) != "length"
      {
        DigitsRead(j);
        assert "length"[0] == 'l';
      }
    }
  }

  /** The prefixes, and the text between the quotes, as they are written. */
  lemma PrefixedText<B(!new), N(!new)>(nums: BigNumbers<B>, numbers: Numbers<N>, i: int, b: B)
    ensures CastValue<B, N>(numbers, BigInt(i), ToText(nums)) == Success(Text("bi@" + Print(i)))
    ensures CastValue<B, N>(numbers, BigNumber(b), ToText(nums)) == Success(Text("bn@" + nums.show(b)))
  {
    ToTextLeaf<B, N>(nums, numbers, BigInt(i));
    ToTextLeaf<B, N>(nums, numbers, BigNumber(b));
  }

  /** The formats asked for exist: integers, big or not, printed in decimal. */
  lemma FormatsExist() returns (nums: BigNumbers<int>, numbers: Numbers<int>)
    ensures nums.Faithful() && numbers.Faithful()
  {
    nums := BigNumbers((i: int) => Print(i), (s: string) => ReadInt(s).GetOr(0));
    forall i: int
      ensures ReadInt(Print(i)) == Some(i)
    {
      PrintRead(i);
    }
    numbers := Integers();
    IntegersAreFaithful();
  }
}
