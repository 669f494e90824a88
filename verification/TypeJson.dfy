/** `SimType.to_json` and `SimType.from_json` (angr/angr/sim_type.py): a printer that threads a memo
of the structs and unions it has already written, and the parser that reads its output back.

An attribute key of a JSON object is a constructor of `Key`; the keys of a field dictionary are
arbitrary strings, and the only string that the parser can mistake for an attribute is "_t". */
module TypeJson {
  import opened Wrappers

  /** The class identifiers. */
  datatype Ident = IdInt | IdFloat | IdPtr | IdArray | IdFunc | IdStruct | IdUnion | IdRef

  /** An unqualified type. A `Ref` stands for a named struct or union written elsewhere. */
  datatype Ty =
    | Int(signed: bool, lbl: Option<string>)
    | Float(lbl: Option<string>)
    | Ptr(target: Ty, lbl: Option<string>, offset: int, disposition: nat)
    | Array(elem: Ty, length: Option<int>, lbl: Option<string>)
    | Func(args: seq<Ty>, ret: Option<Ty>, lbl: Option<string>, argNames: seq<string>, variadic: bool)
    | Struct(fields: seq<Field>, name: string, pack: bool, align: Option<int>, anonymous: bool, order: Option<int>)
    | Union(members: seq<Field>, name: string, lbl: Option<string>)
    | Ref(refName: string, original: Ident)

  datatype Field = Field(name: string, ty: Ty)

  datatype Key =
    | T
    | Signed | Label | PtsTo | Offset | Disp | ElemType | Length | Args | ReturnTy | ArgNames | Variadic
    | Fields | Name | Pack | Align | Anonymous | DefOrder | Members | Ot
    | Text(text: string)

  datatype Json =
    | Null
    | Bool(b: bool)
    | Num(n: int)
    | Str(s: string)
    | Id(ident: Ident)
    | Arr(items: seq<Json>)
    | Obj(entries: Entries)

  /** The entries of an object, in order. */
  datatype Entries = Nil | Cons(key: Key, value: Json, rest: Entries)

  const ANON := "<anon>"
  const WIN32_ANON := "_Anonymous_e__Struct"
  const UNKNOWN: nat := 6

  /** A field name as a JSON key. */
  function KeyOf(name: string): Key { if name == "_t" then T else Text(name) }

  function NameOf(k: Key): string { if k.Text? then k.text else "_t" }

  // ------------------------------------------------- objects

  function Find(es: Entries, k: Key): Option<Json> {
    if es.Nil? then None else if es.key == k then Some(es.value) else Find(es.rest, k)
  }

  /** Adds an entry in front when `c` holds. */
  function Put(c: bool, k: Key, v: Json, es: Entries): (r: Entries)
    ensures forall q :: Find(r, q) == if c && q == k then Some(v) else Find(es, q)
  {
    if c then Cons(k, v, es) else es
  }

  function LabelJson(l: Option<string>): Json { if l.Some? then Str(l.value) else Null }

  function NumJson(n: Option<int>): Json { if n.Some? then Num(n.value) else Null }

  // ------------------------------------------------- printing

  /** The classes of the structs and unions written so far, by name. */
  type Memo = map<string, Ident>

  predicate Aggregate(t: Ty) { t.Struct? || t.Union? }

  /** Anonymous aggregates are remembered by identity, so a tree never meets one twice. */
  predicate Remembered(t: Ty)
    requires Aggregate(t)
  {
    t.name != ANON && !(t.Struct? && t.anonymous)
  }

  function ClassOf(t: Ty): Ident
    requires Aggregate(t)
  {
    if t.Struct? then IdStruct else IdUnion
  }

  function Remember(t: Ty, memo: Memo): Memo
    requires Aggregate(t)
  {
    if Remembered(t) then memo[t.name := ClassOf(t)] else memo
  }

  datatype Printed = Printed(json: Json, memo: Memo)
  datatype PrintedAll = PrintedAll(jsons: seq<Json>, memo: Memo)
  datatype PrintedFields = PrintedFields(entries: Entries, memo: Memo)

  function RefJson(name: string, original: Ident): Json {
    Obj(Put(true, T, Id(IdRef), Put(true, Name, Str(name), Put(true, Ot, Id(original), Nil))))
  }

  function IntJson(signed: bool, lbl: Option<string>): Json {
    Obj(Put(true, T, Id(IdInt), Put(!signed, Signed, Bool(signed), Put(lbl.Some?, Label, LabelJson(lbl), Nil))))
  }

  function FloatJson(lbl: Option<string>): Json {
    Obj(Put(true, T, Id(IdFloat), Put(lbl.Some?, Label, LabelJson(lbl), Nil)))
  }

  function PtrJson(target: Json, lbl: Option<string>, offset: int, disp: nat): Json {
    Obj(Put(true, T, Id(IdPtr), Put(true, PtsTo, target, Put(lbl.Some?, Label, LabelJson(lbl),
        Put(offset != 0, Offset, Num(offset), Put(disp != UNKNOWN, Disp, Num(disp), Nil))))))
  }

  function ArrayJson(elem: Json, length: Option<int>, lbl: Option<string>): Json {
    Obj(Put(true, T, Id(IdArray), Put(true, ElemType, elem, Put(true, Length, NumJson(length),
        Put(lbl.Some?, Label, LabelJson(lbl), Nil)))))
  }

  function FuncJson(args: seq<Json>, ret: Json, lbl: Option<string>, names: seq<string>, variadic: bool): Json {
    Obj(Put(true, T, Id(IdFunc), Put(true, Args, Arr(args), Put(true, ReturnTy, ret,
        Put(lbl.Some?, Label, LabelJson(lbl), Put(true, ArgNames, Arr(Strings(names)),
        Put(variadic, Variadic, Bool(variadic), Nil)))))))
  }

  function StructJson(fields: Entries, name: string, pack: bool, align: Option<int>, anonymous: bool, order: Option<int>): Json {
    Obj(Put(true, T, Id(IdStruct), Put(true, Fields, Obj(fields), Put(true, Name, Str(name),
        Put(pack, Pack, Bool(pack), Put(align.Some?, Align, NumJson(align), Put(anonymous, Anonymous, Bool(anonymous),
        Put(order.Some?, DefOrder, NumJson(order), Nil))))))))
  }

  function UnionJson(members: Entries, name: string, lbl: Option<string>): Json {
    Obj(Put(true, T, Id(IdUnion), Put(true, Members, Obj(members), Put(true, Name, Str(name),
        Put(lbl.Some?, Label, LabelJson(lbl), Nil)))))
  }

  function Print(t: Ty, memo: Memo): Printed
    decreases t, 0
  {
    match t
    case Int(signed, lbl) => Printed(IntJson(signed, lbl), memo)
    case Float(lbl) => Printed(FloatJson(lbl), memo)
    case Ptr(target, lbl, offset, disp) =>
      var p := Print(target, memo);
      Printed(PtrJson(p.json, lbl, offset, disp), p.memo)
    case Array(elem, length, lbl) =>
      var p := Print(elem, memo);
      Printed(ArrayJson(p.json, length, lbl), p.memo)
    case Func(args, ret, lbl, names, variadic) =>
      var ps := PrintAll(args, memo);
      var p := if ret.Some? then Print(ret.value, ps.memo) else Printed(Null, ps.memo);
      Printed(FuncJson(ps.jsons, p.json, lbl, names, variadic), p.memo)
    case Struct(fields, name, pack, align, anonymous, order) =>
      if Remembered(t) && name in memo then Printed(RefJson(name, memo[name]), memo)
      else
        var ps := PrintFields(fields, Remember(t, memo));
        Printed(StructJson(ps.entries, name, pack, align, anonymous, order), ps.memo)
    case Union(members, name, lbl) =>
      if Remembered(t) && name in memo then Printed(RefJson(name, memo[name]), memo)
      else
        var ps := PrintFields(members, Remember(t, memo));
        Printed(UnionJson(ps.entries, name, lbl), ps.memo)
    case Ref(name, original) => Printed(RefJson(name, original), memo)
  }

  function PrintAll(ts: seq<Ty>, memo: Memo): PrintedAll
    decreases ts, 0
  {
    if ts == [] then PrintedAll([], memo)
    else
      var p := Print(ts[0], memo);
      var ps := PrintAll(ts[1..], p.memo);
      PrintedAll([p.json] + ps.jsons, ps.memo)
  }

  function PrintFields(fs: seq<Field>, memo: Memo): PrintedFields
    decreases fs, 0
  {
    if fs == [] then PrintedFields(Nil, memo)
    else
      var p := Print(fs[0].ty, memo);
      var ps := PrintFields(fs[1..], p.memo);
      PrintedFields(Cons(KeyOf(fs[0].name), p.json, ps.entries), ps.memo)
  }

  function Strings(names: seq<string>): seq<Json> {
    if names == [] then [] else [Str(names[0])] + Strings(names[1..])
  }

  // ------------------------------------------------- parsing

  /** Sizes, for termination. */
  function Size(j: Json): nat
    decreases j, 0
  {
    match j
    case Arr(items) => 1 + SizeAll(items)
    case Obj(entries) => 1 + SizeEntries(entries)
    case _ => 0
  }

  function SizeAll(js: seq<Json>): nat
    decreases js, 0
  {
    if js == [] then 0 else 1 + Size(js[0]) + SizeAll(js[1..])
  }

  function SizeEntries(es: Entries): nat
    decreases es, 0
  {
    if es.Nil? then 0 else 1 + Size(es.value) + SizeEntries(es.rest)
  }

  lemma {:induction false} FoundSmaller(es: Entries, k: Key)
    ensures Find(es, k).Some? ==> Size(Find(es, k).value) < SizeEntries(es)
  {
    if es.Cons? && es.key != k { FoundSmaller(es.rest, k); }
  }

  datatype ParseError = ParseError

  type Parsed<X> = Result<X, ParseError>

  function GetBool(es: Entries, k: Key, otherwise: bool): Parsed<bool> {
    match Find(es, k)
    case None => Ok(otherwise)
    case Some(Bool(b)) => Ok(b)
    case _ => Err(ParseError)
  }

  function GetNum(es: Entries, k: Key, otherwise: int): Parsed<int> {
    match Find(es, k)
    case None => Ok(otherwise)
    case Some(Num(n)) => Ok(n)
    case _ => Err(ParseError)
  }

  function GetMaybeNum(es: Entries, k: Key): Parsed<Option<int>> {
    match Find(es, k)
    case None => Ok(None)
    case Some(Null) => Ok(None)
    case Some(Num(n)) => Ok(Some(n))
    case _ => Err(ParseError)
  }

  function GetMaybeStr(es: Entries, k: Key): Parsed<Option<string>> {
    match Find(es, k)
    case None => Ok(None)
    case Some(Null) => Ok(None)
    case Some(Str(s)) => Ok(Some(s))
    case _ => Err(ParseError)
  }

  function AsStrings(js: seq<Json>): Parsed<seq<string>> {
    if js == [] then Ok([])
    else if !js[0].Str? then Err(ParseError)
    else
      var rest := AsStrings(js[1..]);
      if rest.Err? then rest else Ok([js[0].s] + rest.value)
  }

  /** A value is read as a type exactly when it is an object with a "_t" key. */
  predicate IsTyped(j: Json) { j.Obj? && Find(j.entries, T).Some? }

  function ParseType(j: Json): Parsed<Ty>
    decreases Size(j), 1
  {
    if IsTyped(j) then ParseObj(j.entries) else Err(ParseError)
  }

  function ParseAt(es: Entries, k: Key): Parsed<Ty>
    decreases SizeEntries(es), 0
  {
    FoundSmaller(es, k);
    if Find(es, k).Some? then ParseType(Find(es, k).value) else Err(ParseError)
  }

  /** An object of a class: each attribute of the class that is present is read, the others take
      the constructor's default. */
  function ParseObj(es: Entries): Parsed<Ty>
    decreases SizeEntries(es), 1
  {
    match Find(es, T)
    case Some(Id(IdInt)) =>
      var signed, lbl := GetBool(es, Signed, true), GetMaybeStr(es, Label);
      if signed.Ok? && lbl.Ok? then Ok(Int(signed.value, lbl.value)) else Err(ParseError)
    case Some(Id(IdFloat)) =>
      var lbl := GetMaybeStr(es, Label);
      if lbl.Ok? then Ok(Float(lbl.value)) else Err(ParseError)
    case Some(Id(IdPtr)) =>
      var target, lbl := ParseAt(es, PtsTo), GetMaybeStr(es, Label);
      var offset, disp := GetNum(es, Offset, 0), GetNum(es, Disp, UNKNOWN);
      if target.Ok? && lbl.Ok? && offset.Ok? && disp.Ok? && 0 <= disp.value <= UNKNOWN then
        Ok(Ptr(target.value, lbl.value, offset.value, disp.value))
      else Err(ParseError)
    case Some(Id(IdArray)) =>
      var elem, length, lbl := ParseAt(es, ElemType), GetMaybeNum(es, Length), GetMaybeStr(es, Label);
      if elem.Ok? && length.Ok? && lbl.Ok? then Ok(Array(elem.value, length.value, lbl.value)) else Err(ParseError)
    case Some(Id(IdFunc)) =>
      var args, ret, lbl := ParseArgs(es), ParseReturn(es), GetMaybeStr(es, Label);
      var names, variadic := ParseArgNames(es), GetBool(es, Variadic, false);
      if args.Ok? && ret.Ok? && lbl.Ok? && names.Ok? && variadic.Ok? then
        Ok(Func(args.value, ret.value, lbl.value, names.value, variadic.value))
      else Err(ParseError)
    case Some(Id(IdStruct)) =>
      var fields, name := ParseDict(es, Fields), GetMaybeStr(es, Name);
      var pack, align := GetBool(es, Pack, false), GetMaybeNum(es, Align);
      var anonymous, order := GetBool(es, Anonymous, false), GetMaybeNum(es, DefOrder);
      if fields.Ok? && name.Ok? && pack.Ok? && align.Ok? && anonymous.Ok? && order.Ok? then
        Ok(NewStruct(fields.value, name.value, pack.value, align.value, anonymous.value, order.value))
      else Err(ParseError)
    case Some(Id(IdUnion)) =>
      var members, name, lbl := ParseDict(es, Members), GetMaybeStr(es, Name), GetMaybeStr(es, Label);
      if members.Ok? && name.Ok? && lbl.Ok? then Ok(Union(members.value, NameOr(name.value), lbl.value))
      else Err(ParseError)
    case Some(Id(IdRef)) =>
      var name, original := Find(es, Name), Find(es, Ot);
      if name.Some? && name.value.Str? && original.Some? && original.value.Id? then
        Ok(Ref(name.value.s, original.value.ident))
      else Err(ParseError)
    case _ => Err(ParseError)
  }

  function NameOr(name: Option<string>): string { if name.Some? then name.value else ANON }

  /** The struct constructor: a missing name and the Windows placeholder name are special. */
  function NewStruct(fields: seq<Field>, name: Option<string>, pack: bool, align: Option<int>, anonymous: bool, order: Option<int>): Ty {
    Struct(fields, NameOr(name), pack, align, anonymous || NameOr(name) == WIN32_ANON, order)
  }

  function ParseArgs(es: Entries): Parsed<seq<Ty>>
    decreases SizeEntries(es), 0
  {
    FoundSmaller(es, Args);
    match Find(es, Args)
    case Some(Arr(js)) => ParseAll(js)
    case _ => Err(ParseError)
  }

  function ParseAll(js: seq<Json>): Parsed<seq<Ty>>
    decreases SizeAll(js), 0
  {
    if js == [] then Ok([])
    else
      var t, ts := ParseType(js[0]), ParseAll(js[1..]);
      if t.Ok? && ts.Ok? then Ok([t.value] + ts.value) else Err(ParseError)
  }

  function ParseReturn(es: Entries): Parsed<Option<Ty>>
    decreases SizeEntries(es), 0
  {
    FoundSmaller(es, ReturnTy);
    match Find(es, ReturnTy)
    case None => Err(ParseError)
    case Some(Null) => Ok(None)
    case Some(j) =>
      var t := ParseType(j);
      if t.Ok? then Ok(Some(t.value)) else Err(ParseError)
  }

  function ParseArgNames(es: Entries): Parsed<seq<string>> {
    match Find(es, ArgNames)
    case None => Ok([])
    case Some(Null) => Ok([])
    case Some(Arr(js)) => AsStrings(js)
    case _ => Err(ParseError)
  }

  /** A dictionary of types. One with a "_t" key is taken for a type, and then not for a dictionary. */
  function ParseDict(es: Entries, k: Key): Parsed<seq<Field>>
    decreases SizeEntries(es), 0
  {
    FoundSmaller(es, k);
    match Find(es, k)
    case Some(Obj(fs)) => if Find(fs, T).Some? then Err(ParseError) else ParseFields(fs)
    case _ => Err(ParseError)
  }

  function ParseFields(es: Entries): Parsed<seq<Field>>
    decreases SizeEntries(es), 0
  {
    if es.Nil? then Ok([])
    else
      var t, rest := ParseType(es.value), ParseFields(es.rest);
      if t.Ok? && rest.Ok? then Ok([Field(NameOf(es.key), t.value)] + rest.value) else Err(ParseError)
  }

  // ------------------------------------------------- printing with a shared memo

  /** The memo object that every nested call of the printer updates. */
  class MemoTable {
    var written: Memo

    constructor ()
      ensures written == map[]
    {
      written := map[];
    }
  }

  method ToJson(t: Ty, memo: MemoTable) returns (j: Json)
    modifies memo
    ensures Printed(j, memo.written) == Print(t, old(memo.written))
    decreases t, 0
  {
    match t
    case Int(signed, lbl) => j := IntJson(signed, lbl);
    case Float(lbl) => j := FloatJson(lbl);
    case Ptr(target, lbl, offset, disp) =>
      var p := ToJson(target, memo);
      j := PtrJson(p, lbl, offset, disp);
    case Array(elem, length, lbl) =>
      var p := ToJson(elem, memo);
      j := ArrayJson(p, length, lbl);
    case Func(args, ret, lbl, names, variadic) =>
      var ps := ToJsonAll(args, memo);
      var p := Null;
      if ret.Some? { p := ToJson(ret.value, memo); }
      j := FuncJson(ps, p, lbl, names, variadic);
    case Struct(fields, name, pack, align, anonymous, order) =>
      if Remembered(t) && name in memo.written { return RefJson(name, memo.written[name]); }
      memo.written := Remember(t, memo.written);
      var ps := ToJsonFields(fields, memo);
      j := StructJson(ps, name, pack, align, anonymous, order);
    case Union(members, name, lbl) =>
      if Remembered(t) && name in memo.written { return RefJson(name, memo.written[name]); }
      memo.written := Remember(t, memo.written);
      var ps := ToJsonFields(members, memo);
      j := UnionJson(ps, name, lbl);
    case Ref(name, original) => j := RefJson(name, original);
  }

  method ToJsonAll(ts: seq<Ty>, memo: MemoTable) returns (js: seq<Json>)
    modifies memo
    ensures PrintedAll(js, memo.written) == PrintAll(ts, old(memo.written))
    decreases ts, 0
  {
    if ts == [] { return []; }
    var j := ToJson(ts[0], memo);
    var rest := ToJsonAll(ts[1..], memo);
    js := [j] + rest;
  }

  method ToJsonFields(fs: seq<Field>, memo: MemoTable) returns (es: Entries)
    modifies memo
    ensures PrintedFields(es, memo.written) == PrintFields(fs, old(memo.written))
    decreases fs, 0
  {
    if fs == [] { return Nil; }
    var j := ToJson(fs[0].ty, memo);
    var rest := ToJsonFields(fs[1..], memo);
    es := Cons(KeyOf(fs[0].name), j, rest);
  }
}
