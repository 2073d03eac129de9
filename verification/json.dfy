/**
 * JSON-like values as the job store holds them, and the conversion of every
 * float into the store's precise decimal before a write
 * (`convert_floats_to_decimal`).
 */
module Json {
  import opened Options

  /** A Python float, kept as its IEEE-754 bit pattern; no float arithmetic is modelled. */
  datatype Float64 = Float64(bits: bv64)

  /**
   * The store's precise decimal. `OfFloat(f)` stands for `Decimal(str(f))`, the
   * decimal written by the float's shortest representation, left uninterpreted;
   * `Digits` is any other decimal the store returns.
   */
  datatype Decimal = OfFloat(source: Float64) | Digits(text: string)

  /** A value of a stored item: Python's None, bool, int, float, Decimal, str, list and dict. */
  datatype Value =
    | Null
    | Bool(b: bool)
    | Int(i: int)
    | Float(f: Float64)
    | Num(d: Decimal)
    | Str(s: string)
    | List(elems: seq<Value>)
    | Dict(fields: map<string, Value>)

  /** A stored record: the store's items are dicts from attribute name to value. */
  type Item = map<string, Value>

  /** No float anywhere inside `v`. */
  predicate NoFloat(v: Value) {
    match v
    case Float(_) => false
    case List(xs) => forall i :: 0 <= i < |xs| ==> NoFloat(xs[i])
    case Dict(m) => forall k :: k in m ==> NoFloat(m[k])
    case _ => true
  }

  /** Neither a list nor a dict. */
  predicate IsLeaf(v: Value) {
    !v.List? && !v.Dict?
  }

  /**
   * `convert_floats_to_decimal`: floats become decimals, dicts and lists are
   * rebuilt element by element, every other value is returned as it is.
   */
  function ConvertFloats(v: Value): (r: Value)
    ensures NoFloat(r)
    ensures v.Float? ==> r == Num(OfFloat(v.f))
    ensures IsLeaf(v) && !v.Float? ==> r == v
    ensures v.List? <==> r.List?
    ensures v.List? ==> |r.elems| == |v.elems|
    ensures v.Dict? <==> r.Dict?
    ensures v.Dict? ==> r.fields.Keys == v.fields.Keys
  {
    match v
    case Float(f) => Num(OfFloat(f))
    case List(xs) => List(seq(|xs|, i requires 0 <= i < |xs| => ConvertFloats(xs[i])))
    case Dict(m) => Dict(map k | k in m :: ConvertFloats(m[k]))
    case _ => v
  }

  /** `convert_floats_to_decimal` applied to a whole record. */
  function ConvertItem(item: Item): (r: Item)
    ensures r.Keys == item.Keys
    ensures NoFloat(Dict(r))
    ensures forall k :: k in item ==> r[k] == ConvertFloats(item[k])
  {
    ConvertFloats(Dict(item)).fields
  }

  /** A value that holds no float is left exactly as it is. */
  lemma {:induction false} ConvertFloatFree(v: Value)
    requires NoFloat(v)
    ensures ConvertFloats(v) == v
    decreases v
  {
    match v
    case List(xs) =>
      forall i | 0 <= i < |xs| ensures ConvertFloats(xs[i]) == xs[i] {
        ConvertFloatFree(xs[i]);
      }
      assert ConvertFloats(v).elems == xs;
    case Dict(m) =>
      forall k | k in m ensures ConvertFloats(m[k]) == m[k] {
        ConvertFloatFree(m[k]);
      }
      assert ConvertFloats(v).fields == m;
    case _ =>
  }

  /** A record that holds no float is written as it is. */
  lemma ConvertItemFloatFree(item: Item)
    requires NoFloat(Dict(item))
    ensures ConvertItem(item) == item
  {
    ConvertFloatFree(Dict(item));
  }

  /** Converting twice is converting once. */
  lemma {:induction false} ConvertIdempotent(v: Value)
    ensures ConvertFloats(ConvertFloats(v)) == ConvertFloats(v)
  {
    ConvertFloatFree(ConvertFloats(v));
  }

  // ------------------------------------------------------------ every depth

  /** One step into a value: a list position or a dict key. */
  datatype Step = Elem(index: nat) | Field(name: string)

  /** The part of `v` reached by following `path`, or nothing when a step does not exist. */
  function At(v: Value, path: seq<Step>): Option<Value>
    decreases |path|
  {
    if |path| == 0 then Some(v)
    else
      match path[0]
      case Elem(i) => if v.List? && i < |v.elems| then At(v.elems[i], path[1..]) else None
      case Field(k) => if v.Dict? && k in v.fields then At(v.fields[k], path[1..]) else None
  }

  /**
   * The conversion keeps the shape of a value at every depth: the converted
   * value has exactly the paths of the original, what sits at a path is the
   * conversion of what sat there, so a float there became the decimal of its
   * text, every other leaf is unchanged, and every list keeps its length and
   * every dict its keys.
   */
  lemma {:induction false} ConvertAt(v: Value, path: seq<Step>)
    ensures At(ConvertFloats(v), path).Some? <==> At(v, path).Some?
    ensures At(v, path).Some? ==> At(ConvertFloats(v), path).value == ConvertFloats(At(v, path).value)
    ensures At(v, path).Some? && At(v, path).value.Float? ==>
      At(ConvertFloats(v), path).value == Num(OfFloat(At(v, path).value.f))
    ensures At(v, path).Some? && IsLeaf(At(v, path).value) && !At(v, path).value.Float? ==>
      At(ConvertFloats(v), path).value == At(v, path).value
    ensures At(v, path).Some? && At(v, path).value.List? ==>
      At(ConvertFloats(v), path).value.List? && |At(ConvertFloats(v), path).value.elems| == |At(v, path).value.elems|
    ensures At(v, path).Some? && At(v, path).value.Dict? ==>
      At(ConvertFloats(v), path).value.Dict? && At(ConvertFloats(v), path).value.fields.Keys == At(v, path).value.fields.Keys
    decreases |path|
  {
    if |path| > 0 {
      match path[0]
      case Elem(i) =>
        if v.List? && i < |v.elems| {
          ConvertAt(v.elems[i], path[1..]);
        }
      case Field(k) =>
        if v.Dict? && k in v.fields {
          ConvertAt(v.fields[k], path[1..]);
        }
    }
  }
}
