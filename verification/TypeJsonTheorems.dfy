/** Exactly when a type survives being printed to JSON and parsed again. */
module TypeJsonTheorems {
  import opened Wrappers
  import opened TypeJson

  // ------------------------------------------------- what the constructors build

  /** A type without references, as the constructors leave it. */
  predicate Proper(t: Ty)
    decreases t, 0
  {
    match t
    case Int(_, _) => true
    case Float(_) => true
    case Ptr(target, _, _, disp) => disp <= UNKNOWN && Proper(target)
    case Array(elem, _, _) => Proper(elem)
    case Func(args, ret, _, _, _) => ProperAll(args) && (ret.Some? ==> Proper(ret.value))
    case Struct(fields, name, _, _, anonymous, _) => (name == WIN32_ANON ==> anonymous) && ProperFields(fields)
    case Union(members, _, _) => ProperFields(members)
    case Ref(_, _) => false
  }

  predicate ProperAll(ts: seq<Ty>)
    decreases ts, 0
  {
    ts == [] || (Proper(ts[0]) && ProperAll(ts[1..]))
  }

  predicate ProperFields(fs: seq<Field>)
    decreases fs, 0
  {
    fs == [] || (Proper(fs[0].ty) && ProperFields(fs[1..]))
  }

  // ------------------------------------------------- the condition, as the printer meets it

  predicate NoTag(fs: seq<Field>) { fs == [] || (fs[0].name != "_t" && NoTag(fs[1..])) }

  /** No struct or union is met when its name is already in the memo, none has a field "_t". */
  predicate Writable(t: Ty, memo: Memo)
    decreases t, 0
  {
    match t
    case Ptr(target, _, _, _) => Writable(target, memo)
    case Array(elem, _, _) => Writable(elem, memo)
    case Func(args, ret, _, _, _) =>
      WritableAll(args, memo) && (ret.Some? ==> Writable(ret.value, PrintAll(args, memo).memo))
    case Struct(fields, name, _, _, _, _) =>
      !(Remembered(t) && name in memo) && NoTag(fields) && WritableFields(fields, Remember(t, memo))
    case Union(members, name, _) =>
      !(Remembered(t) && name in memo) && NoTag(members) && WritableFields(members, Remember(t, memo))
    case _ => true
  }

  predicate WritableAll(ts: seq<Ty>, memo: Memo)
    decreases ts, 0
  {
    ts == [] || (Writable(ts[0], memo) && WritableAll(ts[1..], Print(ts[0], memo).memo))
  }

  predicate WritableFields(fs: seq<Field>, memo: Memo)
    decreases fs, 0
  {
    fs == [] || (Writable(fs[0].ty, memo) && WritableFields(fs[1..], Print(fs[0].ty, memo).memo))
  }

  // ------------------------------------------------- round trips

  lemma {:induction false} StringsRoundTrip(names: seq<string>)
    ensures AsStrings(Strings(names)) == Ok(names)
  {
    if names != [] {
      StringsRoundTrip(names[1..]);
      assert Strings(names)[1..] == Strings(names[1..]);
      assert names == [names[0]] + names[1..];
    }
  }

  lemma ParsePtr(target: Json, lbl: Option<string>, offset: int, disp: nat)
    requires disp <= UNKNOWN
    ensures var p := ParseType(target);
            ParseType(PtrJson(target, lbl, offset, disp))
            == if p.Ok? then Ok(Ptr(p.value, lbl, offset, disp)) else Err(ParseError)
  {
    var es := PtrJson(target, lbl, offset, disp).entries;
    assert ParseAt(es, PtsTo) == ParseType(target);
    assert GetMaybeStr(es, Label) == Ok(lbl);
    assert GetNum(es, Offset, 0) == Ok(offset);
    assert GetNum(es, Disp, UNKNOWN) == Ok(disp);
  }

  lemma ParseArray(elem: Json, length: Option<int>, lbl: Option<string>)
    ensures var p := ParseType(elem);
            ParseType(ArrayJson(elem, length, lbl))
            == if p.Ok? then Ok(Array(p.value, length, lbl)) else Err(ParseError)
  {
    var es := ArrayJson(elem, length, lbl).entries;
    assert ParseAt(es, ElemType) == ParseType(elem);
  }

  function SomeOf(p: Parsed<Ty>): Parsed<Option<Ty>> { if p.Ok? then Ok(Some(p.value)) else Err(ParseError) }

  function ReturnOf(ret: Json): Parsed<Option<Ty>> { if ret.Null? then Ok(None) else SomeOf(ParseType(ret)) }

  lemma FuncRequired(args: seq<Json>, ret: Json, lbl: Option<string>, names: seq<string>, variadic: bool)
    ensures var es := FuncJson(args, ret, lbl, names, variadic).entries;
            Find(es, T) == Some(Id(IdFunc)) && Find(es, Args) == Some(Arr(args)) && Find(es, ReturnTy) == Some(ret)
  {
  }

  lemma FuncOptional(args: seq<Json>, ret: Json, lbl: Option<string>, names: seq<string>, variadic: bool)
    ensures var es := FuncJson(args, ret, lbl, names, variadic).entries;
            GetMaybeStr(es, Label) == Ok(lbl) && GetBool(es, Variadic, false) == Ok(variadic)
  {
  }

  lemma FuncNames(args: seq<Json>, ret: Json, lbl: Option<string>, names: seq<string>, variadic: bool)
    ensures ParseArgNames(FuncJson(args, ret, lbl, names, variadic).entries) == Ok(names)
  {
    StringsRoundTrip(names);
  }

  lemma ParseFuncObj(es: Entries, args: seq<Json>, ret: Json)
    requires Find(es, T) == Some(Id(IdFunc)) && Find(es, Args) == Some(Arr(args)) && Find(es, ReturnTy) == Some(ret)
    requires GetMaybeStr(es, Label).Ok? && ParseArgNames(es).Ok? && GetBool(es, Variadic, false).Ok?
    ensures ParseObj(es)
            == if ParseAll(args).Ok? && ReturnOf(ret).Ok? then
                 Ok(Func(ParseAll(args).value, ReturnOf(ret).value, GetMaybeStr(es, Label).value,
                         ParseArgNames(es).value, GetBool(es, Variadic, false).value))
               else Err(ParseError)
  {
    assert ParseArgs(es) == ParseAll(args);
    assert ParseReturn(es) == ReturnOf(ret);
  }

  lemma ParseFunc(args: seq<Json>, ret: Json, lbl: Option<string>, names: seq<string>, variadic: bool)
    ensures ParseType(FuncJson(args, ret, lbl, names, variadic))
            == if ParseAll(args).Ok? && ReturnOf(ret).Ok? then
                 Ok(Func(ParseAll(args).value, ReturnOf(ret).value, lbl, names, variadic))
               else Err(ParseError)
  {
    FuncRequired(args, ret, lbl, names, variadic);
    FuncOptional(args, ret, lbl, names, variadic);
    FuncNames(args, ret, lbl, names, variadic);
    ParseFuncObj(FuncJson(args, ret, lbl, names, variadic).entries, args, ret);
  }

  function DictOf(es: Entries): Parsed<seq<Field>> { if Find(es, T).Some? then Err(ParseError) else ParseFields(es) }

  lemma DictAt(es: Entries, k: Key, fs: Entries)
    requires Find(es, k) == Some(Obj(fs))
    ensures ParseDict(es, k) == DictOf(fs)
  {
  }

  lemma StructRequired(fields: Entries, name: string, pack: bool, align: Option<int>, anonymous: bool, order: Option<int>)
    ensures var es := StructJson(fields, name, pack, align, anonymous, order).entries;
            && Find(es, T) == Some(Id(IdStruct)) && Find(es, Fields) == Some(Obj(fields))
            && GetMaybeStr(es, Name) == Ok(Some(name))
  {
  }

  lemma StructOptional(fields: Entries, name: string, pack: bool, align: Option<int>, anonymous: bool, order: Option<int>)
    ensures var es := StructJson(fields, name, pack, align, anonymous, order).entries;
            && GetBool(es, Pack, false) == Ok(pack) && GetBool(es, Anonymous, false) == Ok(anonymous)
  {
  }

  lemma StructNumbers(fields: Entries, name: string, pack: bool, align: Option<int>, anonymous: bool, order: Option<int>)
    ensures var es := StructJson(fields, name, pack, align, anonymous, order).entries;
            && GetMaybeNum(es, Align) == Ok(align) && GetMaybeNum(es, DefOrder) == Ok(order)
  {
  }

  lemma ParseStructObj(es: Entries)
    requires Find(es, T) == Some(Id(IdStruct))
    requires GetMaybeStr(es, Name).Ok? && GetBool(es, Pack, false).Ok? && GetMaybeNum(es, Align).Ok?
    requires GetBool(es, Anonymous, false).Ok? && GetMaybeNum(es, DefOrder).Ok?
    ensures ParseObj(es)
            == if ParseDict(es, Fields).Ok? then
                 Ok(NewStruct(ParseDict(es, Fields).value, GetMaybeStr(es, Name).value, GetBool(es, Pack, false).value,
                              GetMaybeNum(es, Align).value, GetBool(es, Anonymous, false).value, GetMaybeNum(es, DefOrder).value))
               else Err(ParseError)
  {
  }

  lemma ParseStruct(fields: Entries, name: string, pack: bool, align: Option<int>, anonymous: bool, order: Option<int>)
    requires name == WIN32_ANON ==> anonymous
    ensures ParseType(StructJson(fields, name, pack, align, anonymous, order))
            == if DictOf(fields).Ok? then Ok(Struct(DictOf(fields).value, name, pack, align, anonymous, order)) else Err(ParseError)
  {
    var es := StructJson(fields, name, pack, align, anonymous, order).entries;
    StructRequired(fields, name, pack, align, anonymous, order);
    StructOptional(fields, name, pack, align, anonymous, order);
    StructNumbers(fields, name, pack, align, anonymous, order);
    DictAt(es, Fields, fields);
    ParseStructObj(es);
  }

  lemma ParseUnion(members: Entries, name: string, lbl: Option<string>)
    ensures ParseType(UnionJson(members, name, lbl))
            == if DictOf(members).Ok? then Ok(Union(DictOf(members).value, name, lbl)) else Err(ParseError)
  {
    var es := UnionJson(members, name, lbl).entries;
    assert Find(es, Members) == Some(Obj(members));
    DictAt(es, Members, members);
    assert GetMaybeStr(es, Name) == Ok(Some(name));
    assert GetMaybeStr(es, Label) == Ok(lbl);
  }

  lemma ParseRef(name: string, original: Ident)
    ensures ParseType(RefJson(name, original)) == Ok(Ref(name, original))
  {
    var es := RefJson(name, original).entries;
    assert Find(es, T) == Some(Id(IdRef)) && Find(es, Name) == Some(Str(name)) && Find(es, Ot) == Some(Id(original));
  }

  lemma ParseAllCons(j: Json, js: seq<Json>)
    ensures var t, ts := ParseType(j), ParseAll(js);
            ParseAll([j] + js) == if t.Ok? && ts.Ok? then Ok([t.value] + ts.value) else Err(ParseError)
  {
    assert ([j] + js)[1..] == js;
  }

  lemma ConsEqual<X>(x: X, xs: seq<X>, ys: seq<X>)
    requires ys != []
    ensures [x] + xs == ys <==> x == ys[0] && xs == ys[1..]
  {
    assert ys == [ys[0]] + ys[1..];
    assert ([x] + xs)[1..] == xs;
  }

  lemma PrintIsTyped(t: Ty, memo: Memo)
    ensures IsTyped(Print(t, memo).json)
  {
  }

  lemma {:induction false} TagFound(fs: seq<Field>, memo: Memo)
    ensures Find(PrintFields(fs, memo).entries, T).None? <==> NoTag(fs)
  {
    if fs != [] {
      var p := Print(fs[0].ty, memo);
      TagFound(fs[1..], p.memo);
    }
  }

  lemma {:induction false} RoundTripWhen(t: Ty, memo: Memo)
    requires Proper(t)
    ensures ParseType(Print(t, memo).json) == Ok(t) <==> Writable(t, memo)
    decreases t, 1
  {
    match t
    case Int(_, _) =>
    case Float(_) =>
    case Ptr(target, lbl, offset, disp) =>
      RoundTripWhen(target, memo);
      ParsePtr(Print(target, memo).json, lbl, offset, disp);
    case Array(elem, length, lbl) =>
      RoundTripWhen(elem, memo);
      ParseArray(Print(elem, memo).json, length, lbl);
    case Func(_, _, _, _, _) => RoundTripFunc(t, memo);
    case Struct(_, _, _, _, _, _) => RoundTripStruct(t, memo);
    case Union(_, _, _) => RoundTripUnion(t, memo);
  }

  lemma {:induction false} RoundTripFunc(t: Ty, memo: Memo)
    requires t.Func? && Proper(t)
    ensures ParseType(Print(t, memo).json) == Ok(t) <==> Writable(t, memo)
    decreases t, 0
  {
    var ps := PrintAll(t.args, memo);
    RoundTripAll(t.args, memo);
    if t.ret.Some? {
      RoundTripWhen(t.ret.value, ps.memo);
      PrintIsTyped(t.ret.value, ps.memo);
      ParseFunc(ps.jsons, Print(t.ret.value, ps.memo).json, t.lbl, t.argNames, t.variadic);
    } else {
      ParseFunc(ps.jsons, Null, t.lbl, t.argNames, t.variadic);
    }
  }

  lemma {:induction false} RoundTripStruct(t: Ty, memo: Memo)
    requires t.Struct? && Proper(t)
    ensures ParseType(Print(t, memo).json) == Ok(t) <==> Writable(t, memo)
    decreases t, 0
  {
    if Remembered(t) && t.name in memo {
      ParseRef(t.name, memo[t.name]);
    } else {
      RoundTripFields(t.fields, Remember(t, memo));
      TagFound(t.fields, Remember(t, memo));
      ParseStruct(PrintFields(t.fields, Remember(t, memo)).entries, t.name, t.pack, t.align, t.anonymous, t.order);
    }
  }

  lemma {:induction false} RoundTripUnion(t: Ty, memo: Memo)
    requires t.Union? && Proper(t)
    ensures ParseType(Print(t, memo).json) == Ok(t) <==> Writable(t, memo)
    decreases t, 0
  {
    if Remembered(t) && t.name in memo {
      ParseRef(t.name, memo[t.name]);
    } else {
      RoundTripFields(t.members, Remember(t, memo));
      TagFound(t.members, Remember(t, memo));
      ParseUnion(PrintFields(t.members, Remember(t, memo)).entries, t.name, t.lbl);
    }
  }

  lemma {:induction false} RoundTripAll(ts: seq<Ty>, memo: Memo)
    requires ProperAll(ts)
    ensures ParseAll(PrintAll(ts, memo).jsons) == Ok(ts) <==> WritableAll(ts, memo)
    decreases ts, 0
  {
    if ts != [] {
      var p := Print(ts[0], memo);
      var rest := PrintAll(ts[1..], p.memo).jsons;
      RoundTripWhen(ts[0], memo);
      RoundTripAll(ts[1..], p.memo);
      ParseAllCons(p.json, rest);
      if ParseType(p.json).Ok? && ParseAll(rest).Ok? {
        ConsEqual(ParseType(p.json).value, ParseAll(rest).value, ts);
      }
    }
  }

  lemma {:induction false} RoundTripFields(fs: seq<Field>, memo: Memo)
    requires ProperFields(fs)
    ensures ParseFields(PrintFields(fs, memo).entries) == Ok(fs) <==> WritableFields(fs, memo)
    decreases fs, 0
  {
    if fs != [] {
      var p := Print(fs[0].ty, memo);
      var rest := PrintFields(fs[1..], p.memo).entries;
      RoundTripWhen(fs[0].ty, memo);
      RoundTripFields(fs[1..], p.memo);
      if ParseType(p.json).Ok? && ParseFields(rest).Ok? {
        ConsEqual(Field(fs[0].name, ParseType(p.json).value), ParseFields(rest).value, fs);
      }
    }
  }

  // ------------------------------------------------- the condition, as a caller can check it

  /** The names of the structs and unions of a type that the memo would remember. */
  function Names(t: Ty): seq<string>
    decreases t, 0
  {
    match t
    case Ptr(target, _, _, _) => Names(target)
    case Array(elem, _, _) => Names(elem)
    case Func(args, ret, _, _, _) => NamesAll(args) + if ret.Some? then Names(ret.value) else []
    case Struct(fields, name, _, _, _, _) => (if Remembered(t) then [name] else []) + NamesFields(fields)
    case Union(members, name, _) => (if Remembered(t) then [name] else []) + NamesFields(members)
    case _ => []
  }

  function NamesAll(ts: seq<Ty>): seq<string>
    decreases ts, 0
  {
    if ts == [] then [] else Names(ts[0]) + NamesAll(ts[1..])
  }

  function NamesFields(fs: seq<Field>): seq<string>
    decreases fs, 0
  {
    if fs == [] then [] else Names(fs[0].ty) + NamesFields(fs[1..])
  }

  /** No field or member anywhere is called "_t". */
  predicate Untagged(t: Ty)
    decreases t, 0
  {
    match t
    case Ptr(target, _, _, _) => Untagged(target)
    case Array(elem, _, _) => Untagged(elem)
    case Func(args, ret, _, _, _) => UntaggedAll(args) && (ret.Some? ==> Untagged(ret.value))
    case Struct(fields, _, _, _, _, _) => NoTag(fields) && UntaggedFields(fields)
    case Union(members, _, _) => NoTag(members) && UntaggedFields(members)
    case _ => true
  }

  predicate UntaggedAll(ts: seq<Ty>)
    decreases ts, 0
  {
    ts == [] || (Untagged(ts[0]) && UntaggedAll(ts[1..]))
  }

  predicate UntaggedFields(fs: seq<Field>)
    decreases fs, 0
  {
    fs == [] || (Untagged(fs[0].ty) && UntaggedFields(fs[1..]))
  }

  function Elements(names: seq<string>): set<string> { set n | n in names }

  /** The names are new, and new among each other, when met in order. */
  predicate Fresh(names: seq<string>, known: set<string>)
    decreases |names|
  {
    names == [] || (names[0] !in known && Fresh(names[1..], known + {names[0]}))
  }

  lemma {:induction false} FreshAppend(a: seq<string>, b: seq<string>, known: set<string>)
    ensures Fresh(a + b, known) <==> Fresh(a, known) && Fresh(b, known + Elements(a))
    decreases |a|
  {
    if a == [] {
      assert a + b == b;
      assert known + Elements(a) == known;
    } else {
      FreshAppend(a[1..], b, known + {a[0]});
      assert (a + b)[1..] == a[1..] + b;
      assert known + {a[0]} + Elements(a[1..]) == known + Elements(a);
    }
  }

  predicate Distinct(names: seq<string>) {
    forall i, j :: 0 <= i < j < |names| ==> names[i] != names[j]
  }

  lemma {:induction false} FreshIsDistinct(names: seq<string>, known: set<string>)
    ensures Fresh(names, known) <==> Distinct(names) && forall n :: n in names ==> n !in known
    decreases |names|
  {
    if names != [] {
      var rest := names[1..];
      FreshIsDistinct(rest, known + {names[0]});
      assert forall n :: n in names <==> n == names[0] || n in rest;
      if Fresh(names, known) {
        forall i, j | 0 <= i < j < |names| ensures names[i] != names[j] {
          assert names[j] == rest[j - 1];
          if i > 0 { assert names[i] == rest[i - 1]; }
        }
      }
      if Distinct(names) {
        forall i, j | 0 <= i < j < |rest| ensures rest[i] != rest[j] {
          assert rest[i] == names[i + 1] && rest[j] == names[j + 1];
        }
        forall n | n in rest ensures n != names[0] {
          var i :| 0 <= i < |rest| && rest[i] == n;
          assert names[i + 1] == n;
        }
      }
    }
  }

  /** What the printer leaves in the memo when it writes no reference. */
  lemma {:induction false} WritableWhen(t: Ty, memo: Memo)
    requires Proper(t)
    ensures Writable(t, memo) <==> Untagged(t) && Fresh(Names(t), memo.Keys)
    ensures Writable(t, memo) ==> Print(t, memo).memo.Keys == memo.Keys + Elements(Names(t))
    decreases t, 0
  {
    match t
    case Int(_, _) =>
    case Float(_) =>
    case Ptr(target, _, _, _) => WritableWhen(target, memo);
    case Array(elem, _, _) => WritableWhen(elem, memo);
    case Func(args, ret, _, _, _) =>
      WritableAllWhen(args, memo);
      var memo1 := PrintAll(args, memo).memo;
      if ret.Some? {
        WritableWhen(ret.value, memo1);
        FreshAppend(NamesAll(args), Names(ret.value), memo.Keys);
        assert Elements(NamesAll(args) + Names(ret.value)) == Elements(NamesAll(args)) + Elements(Names(ret.value));
      } else {
        assert Names(t) == NamesAll(args);
      }
    case Struct(fields, name, _, _, _, _) =>
      WritableFieldsWhen(fields, Remember(t, memo));
      AggregateNames(t, NamesFields(fields), memo);
    case Union(members, name, _) =>
      WritableFieldsWhen(members, Remember(t, memo));
      AggregateNames(t, NamesFields(members), memo);
  }

  lemma AggregateNames(t: Ty, inner: seq<string>, memo: Memo)
    requires Aggregate(t)
    ensures var names := (if Remembered(t) then [t.name] else []) + inner;
            && (Fresh(names, memo.Keys) <==> !(Remembered(t) && t.name in memo) && Fresh(inner, Remember(t, memo).Keys))
            && Remember(t, memo).Keys + Elements(inner) == memo.Keys + Elements(names)
  {
    if Remembered(t) {
      assert ([t.name] + inner)[1..] == inner;
      assert Remember(t, memo).Keys == memo.Keys + {t.name};
    } else {
      assert [] + inner == inner;
    }
  }

  lemma {:induction false} WritableAllWhen(ts: seq<Ty>, memo: Memo)
    requires ProperAll(ts)
    ensures WritableAll(ts, memo) <==> UntaggedAll(ts) && Fresh(NamesAll(ts), memo.Keys)
    ensures WritableAll(ts, memo) ==> PrintAll(ts, memo).memo.Keys == memo.Keys + Elements(NamesAll(ts))
    decreases ts, 0
  {
    if ts != [] {
      WritableWhen(ts[0], memo);
      WritableAllWhen(ts[1..], Print(ts[0], memo).memo);
      JoinNames(Names(ts[0]), NamesAll(ts[1..]), memo.Keys);
    }
  }

  lemma {:induction false} WritableFieldsWhen(fs: seq<Field>, memo: Memo)
    requires ProperFields(fs)
    ensures WritableFields(fs, memo) <==> UntaggedFields(fs) && Fresh(NamesFields(fs), memo.Keys)
    ensures WritableFields(fs, memo) ==> PrintFields(fs, memo).memo.Keys == memo.Keys + Elements(NamesFields(fs))
    decreases fs, 0
  {
    if fs != [] {
      WritableWhen(fs[0].ty, memo);
      WritableFieldsWhen(fs[1..], Print(fs[0].ty, memo).memo);
      JoinNames(Names(fs[0].ty), NamesFields(fs[1..]), memo.Keys);
    }
  }

  lemma JoinNames(a: seq<string>, b: seq<string>, known: set<string>)
    ensures Fresh(a + b, known) <==> Fresh(a, known) && Fresh(b, known + Elements(a))
    ensures known + Elements(a) + Elements(b) == known + Elements(a + b)
  {
    FreshAppend(a, b, known);
  }

  /** A type survives the round trip exactly when its named structs and unions have distinct names
      and none of its fields is called "_t". */
  lemma JsonRoundTripIff(t: Ty)
    requires Proper(t)
    ensures ParseType(Print(t, map[]).json) == Ok(t) <==> Distinct(Names(t)) && Untagged(t)
  {
    RoundTripWhen(t, map[]);
    WritableWhen(t, map[]);
    FreshIsDistinct(Names(t), {});
    var none: Memo := map[];
    assert none.Keys == {};
  }

  /** Both calls together, with the memo that the first call starts from. */
  method SaveAndLoad(t: Ty) returns (r: Parsed<Ty>)
    requires Proper(t)
    ensures r == Ok(t) <==> Distinct(Names(t)) && Untagged(t)
  {
    var memo := new MemoTable();
    var j := ToJson(t, memo);
    JsonRoundTripIff(t);
    r := ParseType(j);
  }

  const POINT: Ty := Struct([Field("x", Int(true, None))], "point", false, None, false, None)

  // ------------------------------------------------- what is written

  function Maybe(c: bool, j: Json): Option<Json> { if c then Some(j) else None }

  function MaybeLabel(l: Option<string>): Option<Json> { if l.Some? then Some(Str(l.value)) else None }

  function MaybeNum(n: Option<int>): Option<Json> { if n.Some? then Some(Num(n.value)) else None }

  /** The attributes of a type as JSON: those that the constructor takes no default for, and the others when
      they differ from it. */
  function Attribute(t: Ty, memo: Memo, k: Key): Option<Json> {
    match (t, k)
    case (Int(_, _), T) => Some(Id(IdInt))
    case (Int(signed, _), Signed) => Maybe(!signed, Bool(false))
    case (Int(_, lbl), Label) => MaybeLabel(lbl)
    case (Float(_), T) => Some(Id(IdFloat))
    case (Float(lbl), Label) => MaybeLabel(lbl)
    case (Ptr(_, _, _, _), T) => Some(Id(IdPtr))
    case (Ptr(target, _, _, _), PtsTo) => Some(Print(target, memo).json)
    case (Ptr(_, lbl, _, _), Label) => MaybeLabel(lbl)
    case (Ptr(_, _, offset, _), Offset) => Maybe(offset != 0, Num(offset))
    case (Ptr(_, _, _, disp), Disp) => Maybe(disp != 6, Num(disp))
    case (Array(_, _, _), T) => Some(Id(IdArray))
    case (Array(elem, _, _), ElemType) => Some(Print(elem, memo).json)
    case (Array(_, length, _), Length) => Some(if length.Some? then Num(length.value) else Null)
    case (Array(_, _, lbl), Label) => MaybeLabel(lbl)
    case (Func(_, _, _, _, _), T) => Some(Id(IdFunc))
    case (Func(args, _, _, _, _), Args) => Some(Arr(PrintAll(args, memo).jsons))
    case (Func(args, ret, _, _, _), ReturnTy) =>
      Some(if ret.Some? then Print(ret.value, PrintAll(args, memo).memo).json else Null)
    case (Func(_, _, lbl, _, _), Label) => MaybeLabel(lbl)
    case (Func(_, _, _, names, _), ArgNames) => Some(Arr(Strings(names)))
    case (Func(_, _, _, _, variadic), Variadic) => Maybe(variadic, Bool(true))
    case (Struct(_, _, _, _, _, _), T) => Some(Id(IdStruct))
    case (Struct(fields, _, _, _, _, _), Fields) => Some(Obj(PrintFields(fields, Remember(t, memo)).entries))
    case (Struct(_, name, _, _, _, _), Name) => Some(Str(name))
    case (Struct(_, _, pack, _, _, _), Pack) => Maybe(pack, Bool(true))
    case (Struct(_, _, _, align, _, _), Align) => MaybeNum(align)
    case (Struct(_, _, _, _, anonymous, _), Anonymous) => Maybe(anonymous, Bool(true))
    case (Struct(_, _, _, _, _, order), DefOrder) => MaybeNum(order)
    case (Union(_, _, _), T) => Some(Id(IdUnion))
    case (Union(members, _, _), Members) => Some(Obj(PrintFields(members, Remember(t, memo)).entries))
    case (Union(_, name, _), Name) => Some(Str(name))
    case (Union(_, _, lbl), Label) => MaybeLabel(lbl)
    case (Ref(_, _), T) => Some(Id(IdRef))
    case (Ref(name, _), Name) => Some(Str(name))
    case (Ref(_, original), Ot) => Some(Id(original))
    case _ => None
  }

  /** The struct or union has been written under this name already. */
  predicate Repeated(t: Ty, memo: Memo) {
    Aggregate(t) && t.name in memo && t.name != "<anon>" && !(t.Struct? && t.anonymous)
  }

  lemma RefWritten(name: string, original: Ident, memo: Memo, k: Key)
    ensures Find(RefJson(name, original).entries, k) == Attribute(Ref(name, original), memo, k)
  {
  }

  lemma PlainWritten(t: Ty, memo: Memo, k: Key)
    requires t.Int? || t.Float? || t.Ptr? || t.Array?
    ensures Print(t, memo).json.Obj? && Find(Print(t, memo).json.entries, k) == Attribute(t, memo, k)
  {
  }

  lemma FuncWritten(t: Ty, memo: Memo, k: Key)
    requires t.Func?
    ensures Print(t, memo).json.Obj? && Find(Print(t, memo).json.entries, k) == Attribute(t, memo, k)
  {
  }

  lemma StructWritten(t: Ty, memo: Memo, k: Key)
    requires t.Struct? && !Repeated(t, memo)
    ensures Print(t, memo).json.Obj? && Find(Print(t, memo).json.entries, k) == Attribute(t, memo, k)
  {
  }

  lemma UnionWritten(t: Ty, memo: Memo, k: Key)
    requires t.Union? && !Repeated(t, memo)
    ensures Print(t, memo).json.Obj? && Find(Print(t, memo).json.entries, k) == Attribute(t, memo, k)
  {
  }

  /** Exactly these attributes are written; a struct or union already written is a reference to it. */
  lemma AttributesWritten(t: Ty, memo: Memo, k: Key)
    ensures Print(t, memo).json.Obj?
    ensures Find(Print(t, memo).json.entries, k)
         == if Repeated(t, memo) then Attribute(Ref(t.name, memo[t.name]), memo, k) else Attribute(t, memo, k)
  {
    if Repeated(t, memo) {
      RefWritten(t.name, memo[t.name], memo, k);
    } else {
      match t
      case Ref(name, original) => RefWritten(name, original, memo, k);
      case Func(_, _, _, _, _) => FuncWritten(t, memo, k);
      case Struct(_, _, _, _, _, _) => StructWritten(t, memo, k);
      case Union(_, _, _) => UnionWritten(t, memo, k);
      case _ => PlainWritten(t, memo, k);
    }
  }

  predicate Absent(es: Entries, k: Key) { Find(es, k).None? }

  /** What is left out takes the constructor's default. */
  lemma PlainDefaults(es: Entries)
    requires Absent(es, Signed) && Absent(es, Label) && Absent(es, Offset) && Absent(es, Disp) && Absent(es, Length)
    ensures Find(es, T) == Some(Id(IdInt)) ==> ParseObj(es) == Ok(Int(true, None))
    ensures Find(es, T) == Some(Id(IdFloat)) ==> ParseObj(es) == Ok(Float(None))
    ensures Find(es, T) == Some(Id(IdPtr)) && ParseAt(es, PtsTo).Ok? ==>
              ParseObj(es) == Ok(Ptr(ParseAt(es, PtsTo).value, None, 0, 6))
    ensures Find(es, T) == Some(Id(IdArray)) && ParseAt(es, ElemType).Ok? ==>
              ParseObj(es) == Ok(Array(ParseAt(es, ElemType).value, None, None))
  {
  }

  lemma FuncDefaults(es: Entries)
    requires Find(es, T) == Some(Id(IdFunc)) && Absent(es, Label) && Absent(es, ArgNames) && Absent(es, Variadic)
    requires ParseArgs(es).Ok? && ParseReturn(es).Ok?
    ensures ParseObj(es) == Ok(Func(ParseArgs(es).value, ParseReturn(es).value, None, [], false))
  {
  }

  /** A struct without a name is "<anon>", and one with the Windows placeholder name is anonymous. */
  lemma StructDefaults(es: Entries)
    requires Find(es, T) == Some(Id(IdStruct)) && ParseDict(es, Fields).Ok?
    requires Absent(es, Pack) && Absent(es, Align) && Absent(es, Anonymous) && Absent(es, DefOrder)
    requires Absent(es, Name) || Find(es, Name).value.Str?
    ensures Absent(es, Name) ==> ParseObj(es) == Ok(Struct(ParseDict(es, Fields).value, "<anon>", false, None, false, None))
    ensures forall name :: Find(es, Name) == Some(Str(name)) ==>
              ParseObj(es) == Ok(Struct(ParseDict(es, Fields).value, name, false, None, name == "_Anonymous_e__Struct", None))
  {
    ParseStructObj(es);
  }

  lemma UnionDefaults(es: Entries)
    requires Find(es, T) == Some(Id(IdUnion)) && ParseDict(es, Members).Ok? && Absent(es, Name) && Absent(es, Label)
    ensures ParseObj(es) == Ok(Union(ParseDict(es, Members).value, "<anon>", None))
  {
  }

  /** The entry at a position. */
  function EntryAt(es: Entries, i: nat): Option<(Key, Json)>
    decreases es
  {
    match es
    case Nil => None
    case Cons(k, v, rest) => if i == 0 then Some((k, v)) else EntryAt(rest, i - 1)
  }

  /** What has been written before field `i`. */
  function MemoBefore(fs: seq<Field>, memo: Memo, i: nat): Memo
    requires i <= |fs|
  {
    if i == 0 then memo else Print(fs[i - 1].ty, MemoBefore(fs, memo, i - 1)).memo
  }

  lemma {:induction false} MemoFrom(fs: seq<Field>, memo: Memo, i: nat)
    requires 0 < i <= |fs|
    ensures MemoBefore(fs, memo, i) == MemoBefore(fs[1..], Print(fs[0].ty, memo).memo, i - 1)
    decreases i
  {
    if i > 1 { MemoFrom(fs, memo, i - 1); }
  }

  /** Fields are written in order, under their names. */
  lemma {:induction false} FieldsWritten(fs: seq<Field>, memo: Memo, i: nat)
    ensures EntryAt(PrintFields(fs, memo).entries, i)
         == if i < |fs| then Some((if fs[i].name == "_t" then T else Text(fs[i].name), Print(fs[i].ty, MemoBefore(fs, memo, i)).json))
            else None
    decreases i
  {
    if fs != [] && i > 0 {
      FieldsWritten(fs[1..], Print(fs[0].ty, memo).memo, i - 1);
      if i < |fs| { MemoFrom(fs, memo, i); }
    }
  }

  /** The type is part of another, at any depth. */
  ghost predicate Inside(u: Ty, t: Ty)
    decreases t
  {
    u == t ||
    match t
    case Ptr(target, _, _, _) => Inside(u, target)
    case Array(elem, _, _) => Inside(u, elem)
    case Func(args, ret, _, _, _) => (exists k :: 0 <= k < |args| && Inside(u, args[k])) || (ret.Some? && Inside(u, ret.value))
    case Struct(fields, _, _, _, _, _) => exists k :: 0 <= k < |fields| && Inside(u, fields[k].ty)
    case Union(members, _, _) => exists k :: 0 <= k < |members| && Inside(u, members[k].ty)
    case _ => false
  }

  predicate WrittenAs(u: Ty, n: string, c: Ident) {
    Aggregate(u) && u.name == n && c == if u.Struct? then IdStruct else IdUnion
  }

  /** Some struct or union inside has this name and class. */
  ghost predicate Has(t: Ty, n: string, c: Ident) { exists u :: Inside(u, t) && WrittenAs(u, n, c) }

  ghost predicate SomeHas(ts: seq<Ty>, n: string, c: Ident) { exists k :: 0 <= k < |ts| && Has(ts[k], n, c) }

  function TypesOf(fs: seq<Field>): seq<Ty> { seq(|fs|, k requires 0 <= k < |fs| => fs[k].ty) }

  predicate Keeps(memo: Memo, after: Memo) { forall n :: n in memo ==> n in after && after[n] == memo[n] }

  ghost predicate Adds(t: Ty, memo: Memo, after: Memo) {
    Keeps(memo, after) && forall n :: n in after && n !in memo ==> Has(t, n, after[n])
  }

  ghost predicate AllAdd(ts: seq<Ty>, memo: Memo, after: Memo) {
    Keeps(memo, after) && forall n :: n in after && n !in memo ==> SomeHas(ts, n, after[n])
  }

  lemma AddsOne(ts: seq<Ty>, memo: Memo, mid: Memo, after: Memo)
    requires ts != [] && Adds(ts[0], memo, mid) && AllAdd(ts[1..], mid, after)
    ensures AllAdd(ts, memo, after)
  {
    forall n | n in after && n !in memo ensures SomeHas(ts, n, after[n]) {
      if n !in mid {
        var k :| 0 <= k < |ts[1..]| && Has(ts[1..][k], n, after[n]);
        assert Has(ts[k + 1], n, after[n]);
      }
    }
  }

  /** What printing adds to the memo: names of structs and unions inside, each with its class. */
  lemma {:induction false} MemoAdds(t: Ty, memo: Memo)
    ensures Adds(t, memo, Print(t, memo).memo)
    decreases t, 1
  {
    match t
    case Ptr(target, _, _, _) => MemoAdds(target, memo);
    case Array(elem, _, _) => MemoAdds(elem, memo);
    case Func(args, ret, _, _, _) =>
      AllMemoAdds(args, memo);
      var mid := PrintAll(args, memo).memo;
      if ret.Some? { MemoAdds(ret.value, mid); }
      var after := Print(t, memo).memo;
      forall n | n in after && n !in memo ensures Has(t, n, after[n]) {
        if n in mid { PartHas(t, args, n, after[n]); }
      }
    case Struct(fields, _, _, _, _, _) =>
      if !Repeated(t, memo) { MemberMemo(t, fields, memo); }
    case Union(members, _, _) =>
      if !Repeated(t, memo) { MemberMemo(t, members, memo); }
    case _ =>
  }

  lemma {:induction false} MemberMemo(t: Ty, fs: seq<Field>, memo: Memo)
    requires (t.Struct? && t.fields == fs) || (t.Union? && t.members == fs)
    requires t.name in memo ==> t.name == "<anon>" || (t.Struct? && t.anonymous)
    ensures Adds(t, memo, PrintFields(fs, Remember(t, memo)).memo)
    decreases t, 0
  {
    var mid := Remember(t, memo);
    FieldsMemo(fs, mid);
    var after := PrintFields(fs, mid).memo;
    forall n | n in after && n !in memo ensures Has(t, n, after[n]) {
      if n in mid {
        assert Inside(t, t) && WrittenAs(t, n, after[n]);
      } else {
        PartHas(t, TypesOf(fs), n, after[n]);
      }
    }
  }

  lemma PartHas(t: Ty, ts: seq<Ty>, n: string, c: Ident)
    requires (t.Func? && t.args == ts) || (t.Struct? && TypesOf(t.fields) == ts) || (t.Union? && TypesOf(t.members) == ts)
    requires SomeHas(ts, n, c)
    ensures Has(t, n, c)
  {
    var k :| 0 <= k < |ts| && Has(ts[k], n, c);
    var u :| Inside(u, ts[k]) && WrittenAs(u, n, c);
    assert Inside(u, t);
  }

  lemma {:induction false} AllMemoAdds(ts: seq<Ty>, memo: Memo)
    ensures AllAdd(ts, memo, PrintAll(ts, memo).memo)
    decreases ts, 0
  {
    if ts != [] {
      MemoAdds(ts[0], memo);
      AllMemoAdds(ts[1..], Print(ts[0], memo).memo);
      AddsOne(ts, memo, Print(ts[0], memo).memo, PrintAll(ts, memo).memo);
    }
  }

  lemma {:induction false} FieldsMemo(fs: seq<Field>, memo: Memo)
    ensures AllAdd(TypesOf(fs), memo, PrintFields(fs, memo).memo)
    decreases fs, 0
  {
    if fs != [] {
      MemoAdds(fs[0].ty, memo);
      FieldsMemo(fs[1..], Print(fs[0].ty, memo).memo);
      assert TypesOf(fs)[1..] == TypesOf(fs[1..]);
      AddsOne(TypesOf(fs), memo, Print(fs[0].ty, memo).memo, PrintFields(fs, memo).memo);
    }
  }

  /** A function that takes the same named struct twice does not come back. */
  lemma RepeatedStructLost()
    ensures var t := Func([POINT, POINT], None, None, [], false); Proper(t) && ParseType(Print(t, map[]).json) != Ok(t)
  {
    var t := Func([POINT, POINT], None, None, [], false);
    assert [POINT, POINT][1..] == [POINT] && [POINT][1..] == [] && POINT.fields[1..] == [];
    assert ProperFields(POINT.fields) && Proper(POINT);
    assert ProperAll([POINT]);
    assert NamesFields(POINT.fields) == [];
    assert Names(POINT) == ["point"] + [];
    assert NamesAll([POINT]) == ["point"] + [];
    assert NamesAll([POINT, POINT]) == ["point"] + ["point"];
    assert Names(t)[0] == "point" && Names(t)[1] == "point";
    JsonRoundTripIff(t);
  }

  /** Nor does a struct with a field called "_t". */
  lemma TagFieldLost()
    ensures var t := Struct([Field("_t", Int(true, None))], "s", false, None, false, None);
            Proper(t) && ParseType(Print(t, map[]).json) != Ok(t)
  {
    var t := Struct([Field("_t", Int(true, None))], "s", false, None, false, None);
    assert t.fields[1..] == [];
    assert t.name != WIN32_ANON by { assert |t.name| != |WIN32_ANON|; }
    assert ProperFields(t.fields);
    JsonRoundTripIff(t);
  }
}
