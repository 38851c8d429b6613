/** Entities and engine documents: how a row of the API is stored, and how it is
    read back.  JSON is a pair of functions that undo each other. */
module EntityCodec {
  import opened Wrappers

  // ---------- integers as text ----------

  function DigitText(d: nat): string
    requires d < 10
  {
    [('0' as int + d) as char]
  }

  function NatText(n: nat): string {
    if n < 10 then DigitText(n) else NatText(n / 10) + DigitText(n % 10)
  }

  /** `str(i)` */
  function IntText(i: int): string {
    if i < 0 then "-" + NatText(-i) else NatText(i)
  }

  predicate IsDigit(c: char) {
    '0' <= c <= '9'
  }

  function ParseNat(s: string): Option<nat> {
    if s == [] then None
    else
      var c := s[|s| - 1];
      if !IsDigit(c) then None
      else if |s| == 1 then Some(c as int - '0' as int)
      else
        match ParseNat(s[..|s| - 1])
        case None => None
        case Some(n) => Some(10 * n + (c as int - '0' as int))
  }

  /** `int(s)` on plain decimal text. */
  function ParseInt(s: string): Option<int> {
    if s != [] && (s[0] == '-' || s[0] == '+') then
      match ParseNat(s[1..])
      case None => None
      case Some(n) =>
        var i: int := n;
        Some(if s[0] == '-' then -i else i)
    else
      match ParseNat(s)
      case None => None
      case Some(n) => Some(n)
  }

  lemma {:induction false} NatTextParses(n: nat)
    ensures ParseNat(NatText(n)) == Some(n) && NatText(n) != [] && IsDigit(NatText(n)[0])
  {
    if n >= 10 {
      NatTextParses(n / 10);
      assert NatText(n)[..|NatText(n)| - 1] == NatText(n / 10);
    }
  }

  lemma IntTextParses(i: int)
    ensures ParseInt(IntText(i)) == Some(i)
  {
    NatTextParses(if i < 0 then -i else i);
    if i < 0 {
      assert IntText(i)[1..] == NatText(-i);
    }
  }

  /** The text of an integer: digits without a leading zero, after a minus sign
      exactly when it is negative. */
  lemma IntTextShape(i: int)
    ensures var digits := if i < 0 then IntText(i)[1..] else IntText(i);
            && IntText(i) != [] && (IntText(i)[0] == '-' <==> i < 0)
            && digits != [] && (forall c <- digits :: '0' <= c <= '9') && (digits[0] == '0' ==> i == 0 && |digits| == 1)
  {
    var n := if i < 0 then -i else i;
    NatTextShape(n);
    assert NatText(n)[0] in NatText(n);
    assert i < 0 ==> IntText(i)[1..] == NatText(n);
  }

  lemma {:induction false} NatTextShape(n: nat)
    ensures NatText(n) != [] && (forall c <- NatText(n) :: '0' <= c <= '9') && (NatText(n)[0] == '0' ==> n == 0)
    ensures n == 0 ==> |NatText(n)| == 1
  {
    if n >= 10 {
      NatTextShape(n / 10);
    }
  }

  lemma {:induction false} ParseNatIff(s: string)
    ensures ParseNat(s).Some? <==> s != [] && forall c <- s :: '0' <= c <= '9'
  {
    if s != [] {
      var init, last := s[..|s| - 1], s[|s| - 1];
      ParseNatIff(init);
      assert s == init + [last];
      assert last in s && forall c :: c in s <==> c in init || c == last;
      assert |s| == 1 <==> init == [];
    }
  }

  /** Digits parse, with or without a sign, and nothing else does. */
  lemma ParseIntIff(s: string)
    ensures var body := if s != [] && (s[0] == '-' || s[0] == '+') then s[1..] else s;
            ParseInt(s).Some? <==> body != [] && forall c <- body :: '0' <= c <= '9'
    ensures forall n: nat :: ParseInt("+" + NatText(n)) == ParseInt(NatText(n)) == Some(n)
  {
    ParseNatIff(if s != [] && (s[0] == '-' || s[0] == '+') then s[1..] else s);
    forall n: nat ensures ParseInt("+" + NatText(n)) == ParseInt(NatText(n)) == Some(n) {
      NatTextParses(n);
      assert ("+" + NatText(n))[1..] == NatText(n);
    }
  }

  // ---------- values, entities, documents ----------

  /** `OtherVal` is any other JSON value, with what `int` and `str` make of it. */
  datatype Value =
    | Null
    | IntVal(i: int)
    | TextVal(t: string)
    | DictVal(m: map<string, Value>, text: string)
    | OtherVal(asInt: Option<int>, text: string, body: int)

  type Entity = map<string, Value>

  datatype Meta = Meta(pkField: string, pkIsInt: bool, autoId: bool, vectors: set<string>, scalars: set<string>, dynamicOn: bool)

  datatype Doc = Doc(id: string, vectors: Entity, fields: Entity)

  datatype Error = PrimaryKeyRequired | NotAnInteger

  const DYNAMIC_FIELD := "$_dynamic"

  /** What `json.loads` makes of a text. */
  datatype Parsed = Dict(m: Entity) | NotADict | Invalid

  /** `json.dumps` and `json.loads` */
  ghost predicate Inverse(dumps: Entity -> string, loads: string -> Parsed) {
    forall m :: loads(dumps(m)) == Dict(m)
  }

  function ToInt(v: Value): Option<int> {
    match v
    case Null => None
    case IntVal(i) => Some(i)
    case TextVal(t) => ParseInt(t)
    case DictVal(_, _) => None
    case OtherVal(asInt, _, _) => asInt
  }

  function ToText(v: Value): string {
    match v
    case Null => "None"
    case IntVal(i) => IntText(i)
    case TextVal(t) => t
    case DictVal(_, text) => text
    case OtherVal(_, text, _) => text
  }

  /** to_internal_id */
  function InternalId(v: Value, isInt: bool): Option<string> {
    if !isInt then Some(ToText(v))
    else
      match ToInt(v)
      case None => None
      case Some(i) => Some(IntText(i))
  }

  /** from_internal_id */
  function ExternalId(s: string, isInt: bool): Option<Value> {
    if !isInt then Some(TextVal(s))
    else
      match ParseInt(s)
      case None => None
      case Some(i) => Some(IntVal(i))
  }

  /** The primary key in the type of its field. */
  function Canonical(v: Value, isInt: bool): Option<Value> {
    if !isInt then Some(TextVal(ToText(v)))
    else
      match ToInt(v)
      case None => None
      case Some(i) => Some(IntVal(i))
  }

  /** Going through the internal id gives the canonical key. */
  lemma IdRoundTrip(v: Value, isInt: bool)
    ensures InternalId(v, isInt).Some? <==> Canonical(v, isInt).Some?
    ensures InternalId(v, isInt).Some? ==> ExternalId(InternalId(v, isInt).value, isInt) == Canonical(v, isInt)
  {
    if isInt && ToInt(v).Some? {
      IntTextParses(ToInt(v).value);
    }
  }

  // ---------- entity to document ----------

  function Lookup(e: Entity, k: string): Value {
    if k in e then e[k] else Null
  }

  /** The key of an entity: its own field; the field "id" when the key field is
      another spelling of it; or, with auto ids, the generated value. */
  function KeyValue(e: Entity, meta: Meta, generated: Value): Option<Value> {
    var own := Lookup(e, meta.pkField);
    var v := if own == Null && meta.pkField in {"ID", "Id", "iD"} then Lookup(e, "id") else own;
    if v != Null then Some(v) else if meta.autoId then Some(generated) else None
  }

  predicate IsVector(meta: Meta, k: string) {
    k != meta.pkField && k in meta.vectors
  }

  predicate IsScalar(meta: Meta, k: string) {
    k != meta.pkField && k !in meta.vectors && k in meta.scalars
  }

  predicate IsDynamic(meta: Meta, k: string) {
    k != meta.pkField && k !in meta.vectors && k !in meta.scalars && meta.dynamicOn
  }

  predicate IsDropped(meta: Meta, k: string) {
    k != meta.pkField && k !in meta.vectors && k !in meta.scalars && !meta.dynamicOn
  }

  function VectorPart(e: Entity, meta: Meta): Entity {
    map k | k in e && IsVector(meta, k) :: e[k]
  }

  function ScalarPart(e: Entity, meta: Meta): Entity {
    map k | k in e && IsScalar(meta, k) :: e[k]
  }

  function DynamicPart(e: Entity, meta: Meta): Entity {
    map k | k in e && IsDynamic(meta, k) :: e[k]
  }

  function Stored(e: Entity, meta: Meta, key: Value, dumps: Entity -> string): Entity {
    var mirrored := if meta.pkField in meta.scalars then ScalarPart(e, meta)[meta.pkField := key] else ScalarPart(e, meta);
    if DynamicPart(e, meta) == map[] then mirrored else mirrored[DYNAMIC_FIELD := TextVal(dumps(DynamicPart(e, meta)))]
  }

  /** _entity_to_doc: the document, and the key the caller gets back. */
  function Encode(e: Entity, meta: Meta, generated: Value, dumps: Entity -> string): Result<(Doc, Value), Error> {
    match KeyValue(e, meta, generated)
    case None => Failure(PrimaryKeyRequired)
    case Some(v) =>
      match Canonical(v, meta.pkIsInt)
      case None => Failure(NotAnInteger)
      case Some(key) => Success((Doc(ToText(key), VectorPart(e, meta), Stored(e, meta, key, dumps)), key))
  }

  /** The loop over the entity, in whatever order its items come. */
  method EntityToDoc(e: Entity, meta: Meta, generated: Value, dumps: Entity -> string) returns (r: Result<(Doc, Value), Error>)
    ensures r == Encode(e, meta, generated, dumps)
  {
    hide VectorPart, ScalarPart, DynamicPart, IntText, ParseInt;
    var own := Lookup(e, meta.pkField);
    if own == Null && "id" in e && meta.pkField != "id" && meta.pkField in {"ID", "Id", "iD"} {
      own := e["id"];
    }
    if own == Null {
      if !meta.autoId {
        return Failure(PrimaryKeyRequired);
      }
      own := generated;
    }
    var id := InternalId(own, meta.pkIsInt);
    IdRoundTrip(own, meta.pkIsInt);
    if id.None? {
      return Failure(NotAnInteger);
    }
    var vectors, fields, dynamic := Sort(e, meta);
    var key := Canonical(own, meta.pkIsInt).value;
    if meta.pkField in meta.scalars {
      fields := fields[meta.pkField := key];
    }
    if dynamic != map[] {
      fields := fields[DYNAMIC_FIELD := TextVal(dumps(dynamic))];
    }
    return Success((Doc(id.value, vectors, fields), ExternalId(id.value, meta.pkIsInt).value));
  }

  method Sort(e: Entity, meta: Meta) returns (vectors: Entity, fields: Entity, dynamic: Entity)
    ensures vectors == VectorPart(e, meta) && fields == ScalarPart(e, meta) && dynamic == DynamicPart(e, meta)
  {
    vectors, fields, dynamic := map[], map[], map[];
    var left := e.Keys;
    while left != {}
      invariant left <= e.Keys
      invariant vectors == map k | k in e && k !in left && IsVector(meta, k) :: e[k]
      invariant fields == map k | k in e && k !in left && IsScalar(meta, k) :: e[k]
      invariant dynamic == map k | k in e && k !in left && IsDynamic(meta, k) :: e[k]
      decreases left
    {
      var k :| k in left;
      left := left - {k};
      if k == meta.pkField {
        continue;
      }
      if k in meta.vectors {
        vectors := vectors[k := e[k]];
      } else if k in meta.scalars {
        fields := fields[k := e[k]];
      } else if meta.dynamicOn {
        dynamic := dynamic[k := e[k]];
      }
    }
  }

  /** Every key but the primary key goes to exactly one place, or is dropped. */
  lemma KeysArePartitioned(e: Entity, meta: Meta, k: string)
    requires k in e && k != meta.pkField
    ensures var v, s, d := k in VectorPart(e, meta), k in ScalarPart(e, meta), k in DynamicPart(e, meta);
            && !(v && s) && !(v && d) && !(s && d)
            && (!(v || s || d) <==> IsDropped(meta, k))
  {
  }

  /** Encoding fails exactly when there is no key, or no integer in an Int64 key. */
  lemma EncodeFailsIff(e: Entity, meta: Meta, generated: Value, dumps: Entity -> string)
    ensures var r, v := Encode(e, meta, generated, dumps), KeyValue(e, meta, generated);
            && (r.Failure? <==> v.None? || (meta.pkIsInt && ToInt(v.value).None?))
            && (r == Failure(PrimaryKeyRequired) <==> v.None?)
  {
  }

  /** The document has the key `v`, and the caller gets it back in the type of the field. */
  ghost predicate Keyed(r: Result<(Doc, Value), Error>, v: Value, isInt: bool) {
    match v
    case IntVal(i) => r.Success? && r.value.0.id == IntText(i) && r.value.1 == if isInt then v else TextVal(IntText(i))
    case TextVal(t) =>
      && (!isInt ==> r.Success? && r.value.0.id == t && r.value.1 == v)
      && (forall i | isInt && ParseInt(t) == Some(i) :: r.Success? && r.value.0.id == IntText(i) && r.value.1 == IntVal(i))
      && (isInt && ParseInt(t) == None ==> r == Failure(NotAnInteger))
    case DictVal(_, text) => if isInt then r == Failure(NotAnInteger) else r.Success? && r.value.0.id == text
    case OtherVal(i, text, _) =>
      && (!isInt ==> r.Success? && r.value.0.id == text)
      && (isInt && i == None ==> r == Failure(NotAnInteger))
      && (forall n | isInt && i == Some(n) :: r.Success? && r.value.0.id == IntText(n) && r.value.1 == IntVal(n))
    case Null => true
  }

  ghost predicate Absent(e: Entity, k: string) {
    k !in e || e[k] == Null
  }

  /** Which key an entity is stored under: the one it has; that of its field "id"
      only when the key field is another spelling of it; with auto ids the
      generated one; and without any of them it is refused. */
  lemma KeyOfEntity(e: Entity, meta: Meta, generated: Value, dumps: Entity -> string)
    ensures var r, pk := Encode(e, meta, generated, dumps), meta.pkField;
            var standIn := pk in {"ID", "Id", "iD"} && !Absent(e, "id");
            if !Absent(e, pk) then Keyed(r, e[pk], meta.pkIsInt)
            else if standIn then Keyed(r, e["id"], meta.pkIsInt)
            else if meta.autoId then Keyed(r, generated, meta.pkIsInt)
            else r == Failure(PrimaryKeyRequired)
  {
    hide VectorPart, Stored, IntText, ParseInt;
    var own, r := KeyValue(e, meta, generated), Encode(e, meta, generated, dumps);
    if own.Some? {
      EncodeKeyed(e, meta, generated, dumps, own.value);
    }
  }

  lemma EncodeKeyed(e: Entity, meta: Meta, generated: Value, dumps: Entity -> string, v: Value)
    requires KeyValue(e, meta, generated) == Some(v)
    ensures Keyed(Encode(e, meta, generated, dumps), v, meta.pkIsInt)
  {
  }

  /** Rows without a key get different ids from different generated keys. */
  lemma GeneratedIdsDiffer(e: Entity, f: Entity, meta: Meta, v: Value, w: Value, dumps: Entity -> string)
    requires meta.autoId && Absent(e, meta.pkField) && Absent(f, meta.pkField) && v != w
    requires meta.pkField in {"ID", "Id", "iD"} ==> Absent(e, "id") && Absent(f, "id")
    requires if meta.pkIsInt then v.IntVal? && w.IntVal? else v.TextVal? && w.TextVal?
    ensures var r, s := Encode(e, meta, v, dumps), Encode(f, meta, w, dumps);
            r.Success? && s.Success? && r.value.0.id != s.value.0.id && r.value.1 == v && s.value.1 == w
  {
    hide Encode, IntText, ParseInt;
    KeyOfEntity(e, meta, v, dumps);
    KeyOfEntity(f, meta, w, dumps);
    if meta.pkIsInt {
      IntTextParses(v.i);
      IntTextParses(w.i);
    }
  }

  /** What the document holds: vectors and scalars under their names, the key once
      more if it is a scalar field, and in the container the text of `rest`, which
      is everything else, when dynamic fields are on. */
  lemma DocumentHolds(e: Entity, meta: Meta, generated: Value, dumps: Entity -> string) returns (rest: Entity)
    requires Encode(e, meta, generated, dumps).Success? && DYNAMIC_FIELD !in meta.scalars
    ensures var (doc, key) := Encode(e, meta, generated, dumps).value;
            && (forall k :: k in doc.vectors <==> k in e && k != meta.pkField && k in meta.vectors)
            && (forall k <- doc.vectors :: doc.vectors[k] == e[k])
            && (forall k | k != DYNAMIC_FIELD :: k in doc.fields <==>
                  k in meta.scalars && (k == meta.pkField || (k in e && k !in meta.vectors)))
            && (forall k <- doc.fields :: k != DYNAMIC_FIELD ==> doc.fields[k] == if k == meta.pkField then key else e[k])
            && (DYNAMIC_FIELD in doc.fields <==> rest != map[])
            && (DYNAMIC_FIELD in doc.fields ==> doc.fields[DYNAMIC_FIELD] == TextVal(dumps(rest)))
    ensures forall k :: k in rest <==> k in e && k != meta.pkField && k !in meta.vectors && k !in meta.scalars && meta.dynamicOn
    ensures forall k <- rest :: rest[k] == e[k]
  {
    rest := DynamicPart(e, meta);
  }

  // ---------- document to entity ----------

  /** One field of a document, as it is merged into the entity. */
  function MergeField(entity: Entity, k: string, v: Value, loads: string -> Parsed): Entity {
    if k != DYNAMIC_FIELD then entity[k := v]
    else if v.DictVal? then entity + v.m
    else if !v.TextVal? then entity
    else
      match loads(v.t)
      case Dict(m) => entity + m
      case NotADict => entity
      case Invalid => entity[k := v]
  }

  /** The fields in the order in which the engine returns them. */
  function MergeFields(entity: Entity, fields: Entity, order: seq<string>, loads: string -> Parsed): Entity
    requires forall k <- order :: k in fields
  {
    if order == [] then entity
    else
      var k := order[|order| - 1];
      MergeField(MergeFields(entity, fields, order[..|order| - 1], loads), k, fields[k], loads)
  }

  /** `order` enumerates the keys of a document's fields. */
  ghost predicate Enumerates(order: seq<string>, fields: Entity) {
    && (forall k :: k in order <==> k in fields)
    && forall i, j | 0 <= i < j < |order| :: order[i] != order[j]
  }

  const RESERVED := {"id", "score", "distance"}

  /** What the engine returns for a document: an object, or a dictionary, whose
      other items stand in for fields and vectors when both are empty. */
  datatype Item = Item(id: string, fields: Entity, vectors: Entity, score: Option<Value>, isDict: bool, items: Entity)

  predicate Flattened(item: Item) {
    item.isDict && item.fields == map[] && item.vectors == map[]
  }

  function FieldsOf(item: Item): Entity {
    if Flattened(item) then map k | k in item.items && k !in RESERVED :: item.items[k] else item.fields
  }

  function WithScore(entity: Entity, item: Item, includeScore: bool): Entity {
    if includeScore && item.score.Some? then entity["score" := item.score.value]["distance" := item.score.value] else entity
  }

  function Kept(meta: Meta, includeScore: bool, output: set<string>): set<string> {
    output + {meta.pkField, "id"} + if includeScore then {"score", "distance"} else {}
  }

  /** _item_to_entity; None when the id is no integer and should be one. */
  function Decode(item: Item, meta: Meta, order: seq<string>, loads: string -> Parsed, includeScore: bool, output: set<string>): Option<Entity>
    requires forall k <- order :: k in FieldsOf(item)
  {
    match ExternalId(item.id, meta.pkIsInt)
    case None => None
    case Some(key) =>
      var base: Entity := map[meta.pkField := key, "id" := key];
      var scored := WithScore(MergeFields(base, FieldsOf(item), order, loads) + item.vectors, item, includeScore);
      Some(if output == {} then scored else map k | k in scored && k in Kept(meta, includeScore, output) :: scored[k])
  }

  method ItemToEntity(item: Item, meta: Meta, order: seq<string>, loads: string -> Parsed, includeScore: bool, output: set<string>)
    returns (r: Option<Entity>)
    requires forall k <- order :: k in FieldsOf(item)
    ensures r == Decode(item, meta, order, loads, includeScore, output)
  {
    var fields := item.fields;
    if item.isDict && fields == map[] && item.vectors == map[] {
      fields := map k | k in item.items && k !in RESERVED :: item.items[k];
    }
    assert fields == FieldsOf(item);
    var key := ExternalId(item.id, meta.pkIsInt);
    if key.None? {
      return None;
    }
    var entity: Entity := map[meta.pkField := key.value, "id" := key.value];
    ghost var base := entity;
    for i := 0 to |order|
      invariant entity == MergeFields(base, fields, order[..i], loads)
    {
      var k := order[i];
      assert order[..i + 1][..i] == order[..i];
      entity := MergeField(entity, k, fields[k], loads);
    }
    assert order[..|order|] == order;
    entity := entity + item.vectors;
    if includeScore && item.score.Some? {
      entity := entity["score" := item.score.value]["distance" := item.score.value];
    }
    assert entity == WithScore(MergeFields(base, fields, order, loads) + item.vectors, item, includeScore);
    if output != {} {
      var keep := output + {meta.pkField, "id"};
      if includeScore {
        keep := keep + {"score", "distance"};
      }
      assert keep == Kept(meta, includeScore, output);
      entity := map k | k in entity && k in keep :: entity[k];
    }
    return Some(entity);
  }

  /** Whose items are read as fields: a dictionary's that has neither fields nor
      vectors, but for its id and score; of any other item the fields are read. */
  lemma FieldsRead(item: Item, k: string)
    ensures var fields := FieldsOf(item);
            if item.isDict && item.fields == map[] && item.vectors == map[] then
              && (k in fields <==> k in item.items && k != "id" && k != "score" && k != "distance")
              && (k in fields ==> fields[k] == item.items[k])
            else fields == item.fields
  {
  }

  /** Score and output fields: the score stands under both names when it is asked
      for and there is one, over any field so called; with output fields, only
      they, the key, "id" and an asked-for score are kept. */
  lemma DecodeSelects(item: Item, meta: Meta, order: seq<string>, loads: string -> Parsed, includeScore: bool, output: set<string>, k: string)
    requires forall n <- order :: n in FieldsOf(item)
    ensures var plain, r := Decode(item, meta, order, loads, false, {}), Decode(item, meta, order, loads, includeScore, output);
            var scored := includeScore && item.score.Some? && (k == "score" || k == "distance");
            var kept := k in output || k == meta.pkField || k == "id" || (includeScore && (k == "score" || k == "distance"));
            && (plain.None? <==> r.None?)
            && (plain.Some? ==> (k in r.value <==> (k in plain.value || scored) && (output == {} || kept)))
            && (plain.Some? && k in r.value ==> r.value[k] == if scored then item.score.value else plain.value[k])
  {
    hide MergeFields, FieldsOf, ExternalId;
  }

  // ---------- round trip ----------

  /** No field of the schema has the name of the dynamic container. */
  predicate Sound(meta: Meta) {
    meta.pkField != DYNAMIC_FIELD && DYNAMIC_FIELD !in meta.scalars
  }

  /** What is left of an entity: its stored keys, its key in canonical form, and
      the key once more under "id" unless the entity has a stored "id" itself. */
  function Expected(e: Entity, meta: Meta, key: Value): Entity {
    var kept := map k | k in e && k != meta.pkField && !IsDropped(meta, k) :: e[k];
    map["id" := key] + kept + map[meta.pkField := key]
  }

  /** Merging fields, looked at through one key. */
  function MergedAt(k: string, before: Entity, fields: Entity, order: seq<string>, dynamic: Entity): Option<Value> {
    if DYNAMIC_FIELD in order && k in dynamic then Some(dynamic[k])
    else if k in order && k != DYNAMIC_FIELD && k in fields then Some(fields[k])
    else if k in before then Some(before[k])
    else None
  }

  function At(m: Entity, k: string): Option<Value> {
    if k in m then Some(m[k]) else None
  }

  /** `dynamic` is what the dynamic container adds to the entity: the dictionary it
      is, or its text stands for; itself, when its text is no JSON; nothing else. */
  ghost predicate Container(fields: Entity, loads: string -> Parsed, dynamic: Entity) {
    DYNAMIC_FIELD in fields ==>
      match fields[DYNAMIC_FIELD]
      case DictVal(m, _) => dynamic == m
      case TextVal(t) =>
        && (forall m | loads(t) == Dict(m) :: dynamic == m)
        && (loads(t) == NotADict ==> dynamic == map[])
        && (loads(t) == Invalid ==> dynamic == map[DYNAMIC_FIELD := TextVal(t)])
      case _ => dynamic == map[]
  }

  lemma {:induction false} MergedFields(before: Entity, fields: Entity, order: seq<string>, loads: string -> Parsed, dynamic: Entity, k: string)
    requires forall n <- order :: n in fields
    requires forall i, j | 0 <= i < j < |order| :: order[i] != order[j]
    requires Container(fields, loads, dynamic)
    requires forall n :: n in dynamic && n in fields ==> n == DYNAMIC_FIELD
    ensures At(MergeFields(before, fields, order, loads), k) == MergedAt(k, before, fields, order, dynamic)
  {
    hide MergedAt, MergeField, At, Container;
    if order == [] {
      NothingMerged(before, fields, dynamic, k);
    } else {
      var init, last := order[..|order| - 1], order[|order| - 1];
      MergedFields(before, fields, init, loads, dynamic, k);
      assert order == init + [last];
      assert last !in init;
      MergedOne(MergeFields(before, fields, init, loads), before, fields, init, last, loads, dynamic, k);
    }
  }

  lemma NothingMerged(before: Entity, fields: Entity, dynamic: Entity, k: string)
    ensures At(before, k) == MergedAt(k, before, fields, [], dynamic)
  {
  }

  lemma MergedOne(m: Entity, before: Entity, fields: Entity, init: seq<string>, last: string, loads: string -> Parsed, dynamic: Entity, k: string)
    requires last in fields && last !in init && Container(fields, loads, dynamic)
    requires forall n :: n in dynamic && n in fields ==> n == DYNAMIC_FIELD
    requires At(m, k) == MergedAt(k, before, fields, init, dynamic)
    ensures At(MergeField(m, last, fields[last], loads), k) == MergedAt(k, before, fields, init + [last], dynamic)
  {
  }

  /** What any item decodes to: its vectors, the fields its container adds, its
      other fields, and under the key field and "id" its id in the type of the field. */
  lemma DecodedAt(item: Item, meta: Meta, order: seq<string>, loads: string -> Parsed, dynamic: Entity, k: string)
    requires Enumerates(order, FieldsOf(item)) && Container(FieldsOf(item), loads, dynamic)
    requires forall n :: n in dynamic && n in FieldsOf(item) ==> n == DYNAMIC_FIELD
    ensures Decode(item, meta, order, loads, false, {}).None? <==> meta.pkIsInt && ParseInt(item.id).None?
    ensures var r, fields := Decode(item, meta, order, loads, false, {}), FieldsOf(item);
            && (r.Some? && k in item.vectors ==> At(r.value, k) == Some(item.vectors[k]))
            && (r.Some? && k !in item.vectors && DYNAMIC_FIELD in fields && k in dynamic ==> At(r.value, k) == Some(dynamic[k]))
            && (r.Some? && k !in item.vectors && !(DYNAMIC_FIELD in fields && k in dynamic) && k in fields && k != DYNAMIC_FIELD ==>
                  At(r.value, k) == Some(fields[k]))
            && (r.Some? && k !in item.vectors && !(DYNAMIC_FIELD in fields && k in dynamic) && (k !in fields || k == DYNAMIC_FIELD) ==>
                  At(r.value, k) == if k != meta.pkField && k != "id" then None
                                    else if meta.pkIsInt then Some(IntVal(ParseInt(item.id).value)) else Some(TextVal(item.id)))
  {
    hide MergeFields, FieldsOf, Container, ParseInt;
    var key := ExternalId(item.id, meta.pkIsInt);
    if key.Some? {
      MergedFields(map[meta.pkField := key.value, "id" := key.value], FieldsOf(item), order, loads, dynamic, k);
    }
  }

  /** The item holds the document under `fields` and `vectors`. */
  predicate Carries(item: Item, doc: Doc) {
    item.id == doc.id && item.fields == doc.fields && item.vectors == doc.vectors && !Flattened(item)
  }

  /** Decoding what was encoded gives the entity: nothing but the keys outside
      the schema without dynamic fields is lost, in whatever order the engine
      returns the fields. */
  lemma RoundTrip(e: Entity, meta: Meta, generated: Value, dumps: Entity -> string, loads: string -> Parsed, item: Item, order: seq<string>)
    requires Inverse(dumps, loads) && Sound(meta)
    requires Encode(e, meta, generated, dumps).Success?
    requires Carries(item, Encode(e, meta, generated, dumps).value.0) && Enumerates(order, item.fields)
    ensures var (_, key) := Encode(e, meta, generated, dumps).value;
            Decode(item, meta, order, loads, false, {}) == Some(Expected(e, meta, key))
  {
    var (_, key) := Encode(e, meta, generated, dumps).value;
    KeyReadBack(KeyValue(e, meta, generated).value, meta.pkIsInt);
    DecodedKeys(e, meta, key, dumps, loads, order);
  }

  lemma DecodedKeys(e: Entity, meta: Meta, key: Value, dumps: Entity -> string, loads: string -> Parsed, order: seq<string>)
    requires Inverse(dumps, loads) && Sound(meta) && Enumerates(order, Stored(e, meta, key, dumps))
    ensures MergeFields(map[meta.pkField := key, "id" := key], Stored(e, meta, key, dumps), order, loads) + VectorPart(e, meta)
         == Expected(e, meta, key)
  {
    hide MergeFields, MergedAt, Inverse, Container, Stored, Expected, DynamicPart, VectorPart;
    var base, stored := map[meta.pkField := key, "id" := key], Stored(e, meta, key, dumps);
    var merged := MergeFields(base, stored, order, loads);
    forall k ensures At(merged + VectorPart(e, meta), k) == At(Expected(e, meta, key), k) {
      StoredContainer(e, meta, key, dumps, loads);
      MergedFields(base, stored, order, loads, DynamicPart(e, meta), k);
      StoredMerged(e, meta, key, dumps, order, k);
    }
    SameMap(merged + VectorPart(e, meta), Expected(e, meta, key));
  }

  lemma StoredMerged(e: Entity, meta: Meta, key: Value, dumps: Entity -> string, order: seq<string>, k: string)
    requires Sound(meta) && Enumerates(order, Stored(e, meta, key, dumps))
    ensures var m := MergedAt(k, map[meta.pkField := key, "id" := key], Stored(e, meta, key, dumps), order, DynamicPart(e, meta));
            At(Expected(e, meta, key), k) == if k in VectorPart(e, meta) then Some(VectorPart(e, meta)[k]) else m
  {
  }

  lemma SameMap(m: Entity, n: Entity)
    ensures m == n <==> forall k :: At(m, k) == At(n, k)
  {
    if forall k :: At(m, k) == At(n, k) {
      assert forall k :: k in m <==> At(m, k).Some?;
      assert forall k :: k in n <==> At(n, k).Some?;
      assert forall k | k in m :: At(m, k) == Some(m[k]) && At(n, k) == Some(n[k]);
    }
  }

  lemma StoredContainer(e: Entity, meta: Meta, key: Value, dumps: Entity -> string, loads: string -> Parsed)
    requires Inverse(dumps, loads) && Sound(meta)
    ensures Container(Stored(e, meta, key, dumps), loads, DynamicPart(e, meta))
    ensures forall n :: n in DynamicPart(e, meta) && n in Stored(e, meta, key, dumps) ==> n == DYNAMIC_FIELD
  {
  }

  lemma KeyReadBack(v: Value, isInt: bool)
    requires Canonical(v, isInt).Some?
    ensures ExternalId(ToText(Canonical(v, isInt).value), isInt) == Canonical(v, isInt)
  {
    IdRoundTrip(v, isInt);
  }

  /** When every key is in the schema or dynamic fields are on, and the entity
      names its key in the type of the field, what comes back is the entity,
      with its key under "id" when it has no "id" of its own. */
  lemma RoundTripIsIdentity(e: Entity, meta: Meta, generated: Value, dumps: Entity -> string, loads: string -> Parsed, item: Item, order: seq<string>)
    requires Inverse(dumps, loads) && Sound(meta) && meta.pkField in e
    requires if meta.pkIsInt then e[meta.pkField].IntVal? else e[meta.pkField].TextVal?
    requires forall k <- e :: !IsDropped(meta, k)
    requires Encode(e, meta, generated, dumps).Success? ==>
               Carries(item, Encode(e, meta, generated, dumps).value.0) && Enumerates(order, item.fields)
    ensures Encode(e, meta, generated, dumps).Success?
    ensures Decode(item, meta, order, loads, false, {})
         == Some(if "id" in e then e else e["id" := e[meta.pkField]])
  {
    hide Decode, Expected;
    RoundTrip(e, meta, generated, dumps, loads, item, order);
    ExpectedIsEntity(e, meta);
  }

  lemma ExpectedIsEntity(e: Entity, meta: Meta)
    requires meta.pkField in e && forall k <- e :: !IsDropped(meta, k)
    ensures Expected(e, meta, e[meta.pkField]) == if "id" in e then e else e["id" := e[meta.pkField]]
  {
  }

  /** The keys that do not come back are exactly the dropped ones, but for "id". */
  lemma LostIffDropped(e: Entity, meta: Meta, generated: Value, dumps: Entity -> string, loads: string -> Parsed, item: Item,
                       order: seq<string>, k: string)
    requires Inverse(dumps, loads) && Sound(meta) && k in e
    requires Encode(e, meta, generated, dumps).Success?
    requires Carries(item, Encode(e, meta, generated, dumps).value.0) && Enumerates(order, item.fields)
    ensures var decoded := Decode(item, meta, order, loads, false, {});
            decoded.Some? && (k !in decoded.value <==> IsDropped(meta, k) && k != "id")
  {
    RoundTrip(e, meta, generated, dumps, loads, item, order);
  }

  // ---------- the flattened form ----------

  /** A dictionary that holds fields and vectors as items of its own. */
  ghost predicate Spreads(item: Item, doc: Doc) {
    item.id == doc.id && Flattened(item) && forall k | k !in RESERVED :: At(item.items, k) == At(doc.fields + doc.vectors, k)
  }

  /** In the flattened form the names id, score and distance are not fields.  The
      entity comes back exactly when none of them names a stored value, unless it
      is the key that is stored under it. */
  lemma FlatRoundTripIff(e: Entity, meta: Meta, generated: Value, dumps: Entity -> string, loads: string -> Parsed, item: Item, order: seq<string>)
    requires Inverse(dumps, loads) && Sound(meta) && DYNAMIC_FIELD !in meta.vectors
    requires Encode(e, meta, generated, dumps).Success?
    requires Spreads(item, Encode(e, meta, generated, dumps).value.0) && Enumerates(order, FieldsOf(item))
    ensures var (doc, key) := Encode(e, meta, generated, dumps).value;
            Decode(item, meta, order, loads, false, {}) == Some(Expected(e, meta, key))
            <==> forall k | k in RESERVED && k in doc.fields + doc.vectors ::
                   k in {meta.pkField, "id"} && (doc.fields + doc.vectors)[k] == key
  {
    hide MergeFields, Stored, Inverse, Canonical, ExternalId;
    var (doc, key) := Encode(e, meta, generated, dumps).value;
    KeyReadBack(KeyValue(e, meta, generated).value, meta.pkIsInt);
    var base := map[meta.pkField := key, "id" := key];
    var merged, expected := MergeFields(base, FieldsOf(item), order, loads), Expected(e, meta, key);
    assert Decode(item, meta, order, loads, false, {}) == Some(merged) by {
      assert merged + item.vectors == merged;
    }
    forall k ensures At(merged, k) == At(expected, k) <==>
                       (k in RESERVED && k in doc.fields + doc.vectors ==>
                          k in {meta.pkField, "id"} && (doc.fields + doc.vectors)[k] == key) {
      FlatKey(e, meta, key, dumps, loads, FieldsOf(item), order, k);
    }
    SameMap(merged, expected);
  }

  lemma FlatKey(e: Entity, meta: Meta, key: Value, dumps: Entity -> string, loads: string -> Parsed, fields: Entity, order: seq<string>, k: string)
    requires Inverse(dumps, loads) && Sound(meta) && DYNAMIC_FIELD !in meta.vectors && Enumerates(order, fields)
    requires var all := Stored(e, meta, key, dumps) + VectorPart(e, meta);
             forall n :: At(fields, n) == if n in RESERVED then None else At(all, n)
    ensures var all := Stored(e, meta, key, dumps) + VectorPart(e, meta);
            At(MergeFields(map[meta.pkField := key, "id" := key], fields, order, loads), k) == At(Expected(e, meta, key), k)
            <==> (k in RESERVED && k in all ==> k in {meta.pkField, "id"} && all[k] == key)
  {
    hide MergeFields, MergedAt, Inverse, Container, Stored, Expected, DynamicPart, VectorPart, At;
    FlatContainer(e, meta, key, dumps, loads, fields);
    MergedFields(map[meta.pkField := key, "id" := key], fields, order, loads, DynamicPart(e, meta), k);
    FlatMerged(e, meta, key, dumps, fields, order, k);
  }

  lemma FlatMerged(e: Entity, meta: Meta, key: Value, dumps: Entity -> string, fields: Entity, order: seq<string>, k: string)
    requires Sound(meta) && DYNAMIC_FIELD !in meta.vectors
    requires k in order <==> k in fields
    requires DYNAMIC_FIELD in order <==> DynamicPart(e, meta) != map[]
    requires At(fields, k) == if k in RESERVED then None else At(Stored(e, meta, key, dumps) + VectorPart(e, meta), k)
    ensures var all := Stored(e, meta, key, dumps) + VectorPart(e, meta);
            MergedAt(k, map[meta.pkField := key, "id" := key], fields, order, DynamicPart(e, meta)) == At(Expected(e, meta, key), k)
            <==> (k in RESERVED && k in all ==> k in {meta.pkField, "id"} && all[k] == key)
  {
  }

  lemma FlatContainer(e: Entity, meta: Meta, key: Value, dumps: Entity -> string, loads: string -> Parsed, fields: Entity)
    requires Inverse(dumps, loads) && Sound(meta) && DYNAMIC_FIELD !in meta.vectors
    requires var all := Stored(e, meta, key, dumps) + VectorPart(e, meta);
             forall n :: At(fields, n) == if n in RESERVED then None else At(all, n)
    ensures Container(fields, loads, DynamicPart(e, meta))
    ensures forall n :: n in DynamicPart(e, meta) && n in fields ==> n == DYNAMIC_FIELD
    ensures DYNAMIC_FIELD in fields <==> DynamicPart(e, meta) != map[]
  {
    assert forall n :: n in fields <==> At(fields, n).Some?;
  }

  /** An input: a field called score is lost. */
  lemma FlatLosesScore(dumps: Entity -> string, loads: string -> Parsed)
    ensures var e: Entity := map["k" := TextVal("a"), "score" := IntVal(1)];
            var meta := Meta("k", false, false, {}, {"k", "score"}, false);
            var doc := Doc("a", map[], e);
            var item := Item("a", map[], map[], None, true, e);
            && Encode(e, meta, Null, dumps) == Success((doc, TextVal("a"))) && Spreads(item, doc)
            && Decode(item, meta, ["k"], loads, false, {}) == Some(map["k" := TextVal("a"), "id" := TextVal("a")])
  {
    var e: Entity := map["k" := TextVal("a"), "score" := IntVal(1)];
    var meta := Meta("k", false, false, {}, {"k", "score"}, false);
    var item := Item("a", map[], map[], None, true, e);
    assert VectorPart(e, meta) == map[] && DynamicPart(e, meta) == map[];
    assert ScalarPart(e, meta) == map["score" := IntVal(1)];
    assert Stored(e, meta, TextVal("a"), dumps) == e;
    assert FieldsOf(item) == map["k" := TextVal("a")];
    var base: Entity := map["k" := TextVal("a"), "id" := TextVal("a")];
    assert MergeFields(base, FieldsOf(item), ["k"], loads) + map[] == base;
    assert e + map[] == e;
  }
}
