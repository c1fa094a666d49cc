/** What the auditor decides about well-formed modules: sections 5.5.2 and 5.5.4 onwards of the
    WebAssembly Core Specification 1.0 give the encodings. Any bytes may follow a section's
    encoded vector inside the section. */
module WasmEncoding {
  import opened Bytes
  import opened Common
  import opened Leb128
  import opened WasmAudit

  lemma NumberEncoded(v: nat, rest: Data)
    requires v < U32
    ensures Number(Encode(v) + rest) == Some((v, rest))
  {
    ReadEncoded(v, rest);
    assert (Encode(v) + rest)[|Encode(v)|..] == rest;
  }

  lemma SectionKinds(data: Data, forbidden: seq<Data>)
    ensures SectionOk(1, data, forbidden) == VectorOk(data, U32, FunctionType)
    ensures SectionOk(2, data, forbidden) == VectorOk(data, 32, Import)
    ensures SectionOk(4, data, forbidden) == VectorOk(data, U32, Table)
    ensures SectionOk(5, data, forbidden) == MemoryOk(data)
    ensures SectionOk(7, data, forbidden) == VectorOk(data, 64, Export)
    ensures SectionOk(10, data, forbidden) == VectorOk(data, U32, Function)
    ensures Number(data).Some? ==>
              ExportedNames(data) ==
              if Number(data).value.0 <= 64 then ExportNames(Number(data).value.0, Number(data).value.1)
              else []
  {
  }

  function EncodeName(name: Data): Data
  {
    Encode(|name|) + name
  }

  lemma NameEncoded(name: Data, rest: Data)
    requires |name| < U32
    ensures Name(EncodeName(name) + rest) == Some((name, rest))
  {
    hide Encode, Number;
    NumberEncoded(|name|, name + rest);
    assert EncodeName(name) + rest == Encode(|name|) + (name + rest);
    assert (name + rest)[..|name|] == name && (name + rest)[|name|..] == rest;
  }

  function EncodeAll<T>(xs: seq<T>, enc: T -> Data): Data
  {
    if xs == [] then [] else enc(xs[0]) + EncodeAll(xs[1..], enc)
  }

  /** An item parser decides encoded items by `good`, whatever follows. */
  ghost predicate Decides<T(!new)>(xs: seq<T>, enc: T -> Data, good: T -> bool, item: Parser)
  {
    forall x, tail {:trigger item(enc(x) + tail)} ::
      x in xs ==> item(enc(x) + tail) == if good(x) then Some(tail) else None
  }

  predicate All<T>(xs: seq<T>, good: T -> bool)
  {
    forall k :: 0 <= k < |xs| ==> good(xs[k])
  }

  lemma {:induction false} RepeatDecides<T(!new)>(xs: seq<T>, enc: T -> Data, good: T -> bool, item: Parser, tail: Data)
    requires Decides(xs, enc, good, item)
    ensures Repeat(|xs|, EncodeAll(xs, enc) + tail, item) == if All(xs, good) then Some(tail) else None
  {
    if xs == [] {
      assert EncodeAll(xs, enc) + tail == tail;
    } else {
      var rest := EncodeAll(xs[1..], enc) + tail;
      assert EncodeAll(xs, enc) + tail == enc(xs[0]) + rest;
      assert xs[0] in xs && item(enc(xs[0]) + rest) == if good(xs[0]) then Some(rest) else None;
      assert forall x :: x in xs[1..] ==> x in xs;
      RepeatDecides(xs[1..], enc, good, item, tail);
      assert All(xs, good) <==> good(xs[0]) && All(xs[1..], good);
    }
  }

  /** A vector of encoded items is accepted exactly when it is short enough and all are good. */
  lemma {:induction false} VectorDecides<T(!new)>(xs: seq<T>, enc: T -> Data, good: T -> bool, item: Parser,
        limit: nat, tail: Data)
    requires |xs| < U32 && Decides(xs, enc, good, item)
    ensures VectorOk(Encode(|xs|) + EncodeAll(xs, enc) + tail, limit, item) <==> |xs| <= limit && All(xs, good)
  {
    hide Encode, Number, Repeat, EncodeAll;
    var vector := EncodeAll(xs, enc) + tail;
    assert Encode(|xs|) + EncodeAll(xs, enc) + tail == Encode(|xs|) + vector;
    NumberEncoded(|xs|, vector);
    RepeatDecides(xs, enc, good, item, tail);
  }

  // ---------- Function types ----------

  /** The form of a function type is 0x60. */
  datatype FuncType = FuncType(form: byte, params: Data, results: Data)

  predicate NoFloats(types: Data)
  {
    forall k :: 0 <= k < |types| ==> types[k] != 0x7D && types[k] != 0x7C
  }

  function EncodeFuncType(): FuncType -> Data
  {
    (t: FuncType) => [t.form] + EncodeName(t.params) + EncodeName(t.results)
  }

  function FloatFree(): FuncType -> bool
  {
    (t: FuncType) => t.form == 0x60 && NoFloats(t.params) && NoFloats(t.results)
  }

  lemma ValueTypesEncoded(types: Data, rest: Data)
    requires |types| < U32
    ensures ValueTypes(EncodeName(types) + rest) == if NoFloats(types) then Some(rest) else None
  {
    hide Encode, Number;
    NumberEncoded(|types|, types + rest);
    assert EncodeName(types) + rest == Encode(|types|) + (types + rest);
    assert (types + rest)[|types|..] == rest;
    assert forall k :: 0 <= k < |types| ==> (types + rest)[k] == types[k];
  }

  lemma FunctionTypeEncoded(t: FuncType, tail: Data)
    requires |t.params| < U32 && |t.results| < U32
    ensures FunctionType(EncodeFuncType()(t) + tail) == if FloatFree()(t) then Some(tail) else None
  {
    hide ValueTypes, EncodeName;
    var data := EncodeFuncType()(t) + tail;
    assert data[0] == t.form;
    assert data[1..] == EncodeName(t.params) + (EncodeName(t.results) + tail);
    ValueTypesEncoded(t.params, EncodeName(t.results) + tail);
    ValueTypesEncoded(t.results, tail);
  }

  lemma {:induction false} TypesDecide(types: seq<FuncType>)
    requires forall t :: t in types ==> |t.params| < U32 && |t.results| < U32
    ensures Decides(types, EncodeFuncType(), FloatFree(), FunctionType)
  {
    hide ValueTypes, EncodeName, NoFloats;
    var item: Parser, enc, good := FunctionType, EncodeFuncType(), FloatFree();
    forall t, rest {:trigger item(enc(t) + rest)} | t in types
      ensures item(enc(t) + rest) == if good(t) then Some(rest) else None
    {
      FunctionTypeEncoded(t, rest);
    }
  }

  /** An encoded list of function types is accepted exactly when all are function types and no
      parameter and no result is f32 or f64. */
  lemma {:induction false} TypesDecided(types: seq<FuncType>, tail: Data, forbidden: seq<Data>)
    requires |types| < U32
    requires forall t :: t in types ==> |t.params| < U32 && |t.results| < U32
    ensures SectionOk(1, Encode(|types|) + EncodeAll(types, EncodeFuncType()) + tail, forbidden) <==>
            forall k :: 0 <= k < |types| ==>
              types[k].form == 0x60 && NoFloats(types[k].params) && NoFloats(types[k].results)
  {
    hide FunctionType, VectorOk, EncodeAll, EncodeFuncType, Decides;
    TypesDecide(types);
    VectorDecides(types, EncodeFuncType(), FloatFree(), FunctionType, U32, tail);
  }

  // ---------- Limits, tables, memories ----------

  /** A flag of 1 announces a maximum; any other flag is taken for none. */
  datatype PageLimits = AtLeast(flag: byte, min: nat) | Between(min: nat, max: nat)

  predicate Fits(l: PageLimits)
  {
    l.min < U32 && (if l.Between? then l.max < U32 else l.flag != 1)
  }

  predicate Within(l: PageLimits, most: nat)
  {
    l.min <= most && (l.Between? ==> l.max <= most)
  }

  function EncodeLimits(l: PageLimits): Data
  {
    match l
    case AtLeast(flag, min) => [flag] + Encode(min)
    case Between(min, max) => [1] + Encode(min) + Encode(max)
  }

  lemma LimitsEncoded(l: PageLimits, most: nat, tail: Data)
    requires Fits(l)
    ensures Limits(EncodeLimits(l) + tail, most) == if Within(l, most) then Some(tail) else None
  {
    hide Encode, Number;
    var data := EncodeLimits(l) + tail;
    match l
    case AtLeast(flag, min) =>
      assert data[0] == flag && data[1..] == Encode(min) + tail;
      NumberEncoded(min, tail);
    case Between(min, max) =>
      assert data[0] == 1 && data[1..] == Encode(min) + (Encode(max) + tail);
      NumberEncoded(min, Encode(max) + tail);
      NumberEncoded(max, tail);
  }

  /** The page count reported: the last of the two limits that is within 256 pages. */
  function PagesLeft(l: PageLimits, before: nat): nat
  {
    if l.min > 256 then before else if l.Between? && l.max <= 256 then l.max else l.min
  }

  /** One encoded memory is accepted exactly when it stays within 256 pages, and the report then
      carries its maximum, or its minimum when there is none. */
  lemma {:induction false} MemoryDecided(l: PageLimits, tail: Data, before: nat, forbidden: seq<Data>)
    requires Fits(l)
    ensures var data := Encode(1) + EncodeLimits(l) + tail;
            (SectionOk(5, data, forbidden) <==> Within(l, 256)) &&
            MemoryPages(data, before) == PagesLeft(l, before)
  {
    hide Encode, Number, Limits, MemoryPages, SectionOk, EncodeLimits, PagesLeft;
    var body := EncodeLimits(l) + tail;
    var data := Encode(1) + body;
    assert Encode(1) + EncodeLimits(l) + tail == data;
    NumberEncoded(1, body);
    LimitsEncoded(l, MAX_MEMORY_PAGES, tail);
    SectionKinds(data, forbidden);
    PagesEncoded(l, tail, before);
  }

  lemma PagesEncoded(l: PageLimits, tail: Data, before: nat)
    requires Fits(l)
    ensures MemoryPages(Encode(1) + (EncodeLimits(l) + tail), before) == PagesLeft(l, before)
  {
    hide Encode, Number, LimitPages, EncodeLimits, PagesLeft;
    NumberEncoded(1, EncodeLimits(l) + tail);
    LimitPagesEncoded(l, tail, before);
  }

  lemma LimitPagesEncoded(l: PageLimits, tail: Data, before: nat)
    requires Fits(l)
    ensures LimitPages(EncodeLimits(l) + tail, before) == PagesLeft(l, before)
  {
    hide Encode, Number;
    var body := EncodeLimits(l) + tail;
    match l
    case AtLeast(flag, min) =>
      assert body[0] == flag && body[1..] == Encode(min) + tail;
      NumberEncoded(min, tail);
    case Between(min, max) =>
      assert body[0] == 1 && body[1..] == Encode(min) + (Encode(max) + tail);
      NumberEncoded(min, Encode(max) + tail);
      NumberEncoded(max, tail);
  }

  /** No memory at all is accepted, more than one is not, and neither is reported. */
  lemma MemoryCount(n: nat, tail: Data, before: nat, forbidden: seq<Data>)
    requires n < U32 && n != 1
    ensures SectionOk(5, Encode(n) + tail, forbidden) <==> n == 0
    ensures MemoryPages(Encode(n) + tail, before) == before
  {
    hide Encode, Number, Limits, LimitPages;
    NumberEncoded(n, tail);
  }

  datatype TableType = TableType(element: byte, limits: PageLimits)

  function EncodeTable(): TableType -> Data
  {
    (t: TableType) => [t.element] + EncodeLimits(t.limits)
  }

  function SmallTable(): TableType -> bool
  {
    (t: TableType) => Within(t.limits, MAX_TABLE_SIZE)
  }

  lemma TableEncoded(t: TableType, rest: Data)
    requires Fits(t.limits)
    ensures Table(EncodeTable()(t) + rest) == if SmallTable()(t) then Some(rest) else None
  {
    hide Limits, EncodeLimits, Within;
    var data := EncodeTable()(t) + rest;
    assert data[1..] == EncodeLimits(t.limits) + rest;
    LimitsEncoded(t.limits, MAX_TABLE_SIZE, rest);
  }

  lemma TablesDecide(tables: seq<TableType>)
    requires forall t :: t in tables ==> Fits(t.limits)
    ensures Decides(tables, EncodeTable(), SmallTable(), Table)
  {
    hide Limits, EncodeLimits, Within;
    var item: Parser, enc, good := Table, EncodeTable(), SmallTable();
    forall t, rest {:trigger item(enc(t) + rest)} | t in tables
      ensures item(enc(t) + rest) == if good(t) then Some(rest) else None
    {
      TableEncoded(t, rest);
    }
  }

  /** Encoded tables are accepted exactly when every limit is within 1024 elements. */
  lemma {:induction false} TablesDecided(tables: seq<TableType>, tail: Data, forbidden: seq<Data>)
    requires |tables| < U32 && forall t :: t in tables ==> Fits(t.limits)
    ensures SectionOk(4, Encode(|tables|) + EncodeAll(tables, EncodeTable()) + tail, forbidden) <==>
            forall k :: 0 <= k < |tables| ==> Within(tables[k].limits, 1024)
  {
    hide VectorOk, EncodeAll, EncodeTable, Within, Decides;
    TablesDecide(tables);
    VectorDecides(tables, EncodeTable(), SmallTable(), Table, U32, tail);
  }

  // ---------- Imports ----------

  datatype Descriptor = Func(index: nat) | TableImport(table: TableType) | Memory(limits: PageLimits)
        | Global(kind: byte, mutability: byte) | Other(kind: byte)

  datatype ImportEntry = ImportEntry(namespace: Data, field: Data, descriptor: Descriptor)

  predicate ImportFits(i: ImportEntry)
  {
    |i.namespace| < U32 && |i.field| < U32 &&
    match i.descriptor
    case Func(index) => index < U32
    case TableImport(t) => Fits(t.limits)
    case Memory(l) => Fits(l)
    case Global(_, _) => true
    case Other(kind) => kind > 3
  }

  function EncodeDescriptor(d: Descriptor): Data
  {
    match d
    case Func(index) => [0] + Encode(index)
    case TableImport(t) => [1, t.element] + EncodeLimits(t.limits)
    case Memory(l) => [2] + EncodeLimits(l)
    case Global(kind, mutability) => [3, kind, mutability]
    case Other(kind) => [kind]
  }

  function EncodeImport(): ImportEntry -> Data
  {
    (i: ImportEntry) => EncodeName(i.namespace) + EncodeName(i.field) + EncodeDescriptor(i.descriptor)
  }

  function FromHost(): ImportEntry -> bool
  {
    (i: ImportEntry) => i.namespace == ACCUMEN
  }

  lemma DescriptorEncoded(d: Descriptor, tail: Data)
    requires match d case Func(index) => index < U32 case TableImport(t) => Fits(t.limits)
                     case Memory(l) => Fits(l) case Global(_, _) => true case Other(kind) => kind > 3
    ensures var data := EncodeDescriptor(d) + tail;
            data != [] && ImportDescriptor(data[0], data[1..]) == Some(tail)
  {
    hide Encode, Number, Limits, EncodeLimits;
    var data := EncodeDescriptor(d) + tail;
    match d
    case Func(index) =>
      assert data[1..] == Encode(index) + tail;
      NumberEncoded(index, tail);
    case TableImport(t) =>
      assert data[0] == 1 && data[1..][1..] == EncodeLimits(t.limits) + tail;
      LimitsNonEmpty(t.limits);
      LimitsEncoded(t.limits, U32, tail);
    case Memory(l) =>
      assert data[0] == 2 && data[1..] == EncodeLimits(l) + tail;
      LimitsEncoded(l, U32, tail);
    case Global(_, _) =>
      assert data[0] == 3 && data[1..][2..] == tail;
    case Other(kind) =>
      assert data[0] == kind && data[1..] == tail;
  }

  lemma LimitsNonEmpty(l: PageLimits)
    ensures EncodeLimits(l) != []
  {
  }

  lemma {:induction false} ImportEncoded(i: ImportEntry, rest: Data)
    requires ImportFits(i)
    ensures Import(EncodeImport()(i) + rest) == if FromHost()(i) then Some(rest) else None
  {
    hide Name, EncodeName, EncodeDescriptor, ImportDescriptor;
    var last := EncodeDescriptor(i.descriptor) + rest;
    var middle := EncodeName(i.field) + last;
    assert EncodeImport()(i) + rest == EncodeName(i.namespace) + middle;
    NameEncoded(i.namespace, middle);
    NameEncoded(i.field, last);
    DescriptorEncoded(i.descriptor, rest);
  }

  lemma {:induction false} ImportsDecide(imports: seq<ImportEntry>)
    requires forall i :: i in imports ==> ImportFits(i)
    ensures Decides(imports, EncodeImport(), FromHost(), Import)
  {
    hide Name, EncodeName, EncodeDescriptor, ImportDescriptor;
    var item: Parser, enc, good := Import, EncodeImport(), FromHost();
    forall i, rest {:trigger item(enc(i) + rest)} | i in imports
      ensures item(enc(i) + rest) == if good(i) then Some(rest) else None
    {
      ImportEncoded(i, rest);
    }
  }

  /** Encoded imports are accepted exactly when there are at most 32, all from "accumen"; one of an
      unknown kind counts as having no descriptor. */
  lemma {:induction false} ImportsDecided(imports: seq<ImportEntry>, tail: Data, forbidden: seq<Data>)
    requires |imports| < U32 && forall i :: i in imports ==> ImportFits(i)
    ensures SectionOk(2, Encode(|imports|) + EncodeAll(imports, EncodeImport()) + tail, forbidden) <==>
            |imports| <= 32 && forall k :: 0 <= k < |imports| ==> imports[k].namespace == ACCUMEN
  {
    hide VectorOk, EncodeAll, EncodeImport, Decides;
    ImportsDecide(imports);
    VectorDecides(imports, EncodeImport(), FromHost(), Import, 32, tail);
  }

  // ---------- Exports ----------

  datatype ExportEntry = ExportEntry(name: Data, kind: byte, index: nat)

  function EncodeExport(): ExportEntry -> Data
  {
    (e: ExportEntry) => EncodeName(e.name) + [e.kind] + Encode(e.index)
  }

  function KnownKind(): ExportEntry -> bool
  {
    (e: ExportEntry) => e.kind <= 3
  }

  lemma ExportTailEncoded(e: ExportEntry, rest: Data)
    requires e.index < U32
    ensures ExportTail([e.kind] + Encode(e.index) + rest) == if e.kind <= 3 then Some(rest) else None
  {
    hide Encode, Number;
    assert ([e.kind] + Encode(e.index) + rest)[1..] == Encode(e.index) + rest;
    NumberEncoded(e.index, rest);
  }

  lemma ExportEncoded(e: ExportEntry, rest: Data)
    requires |e.name| < U32 && e.index < U32
    ensures Name(EncodeExport()(e) + rest) == Some((e.name, [e.kind] + Encode(e.index) + rest))
    ensures Export(EncodeExport()(e) + rest) == if KnownKind()(e) then Some(rest) else None
  {
    hide Name, EncodeName, Encode, ExportTail;
    var last := [e.kind] + Encode(e.index) + rest;
    assert EncodeExport()(e) + rest == EncodeName(e.name) + last;
    NameEncoded(e.name, last);
    ExportTailEncoded(e, rest);
  }

  lemma {:induction false} ExportsDecide(exports: seq<ExportEntry>)
    requires forall e :: e in exports ==> |e.name| < U32 && e.index < U32
    ensures Decides(exports, EncodeExport(), KnownKind(), Export)
  {
    hide Name, EncodeName, ExportTail, Encode;
    var item: Parser, enc, good := Export, EncodeExport(), KnownKind();
    forall e, rest {:trigger item(enc(e) + rest)} | e in exports
      ensures item(enc(e) + rest) == if good(e) then Some(rest) else None
    {
      ExportEncoded(e, rest);
    }
  }

  function Names(exports: seq<ExportEntry>): seq<Data>
  {
    if exports == [] then [] else [exports[0].name] + Names(exports[1..])
  }

  /** The names up to the first export of an unknown kind, that one's included. */
  function NamesRead(exports: seq<ExportEntry>): seq<Data>
  {
    if exports == [] then []
    else [exports[0].name] + if exports[0].kind > 3 then [] else NamesRead(exports[1..])
  }

  lemma {:induction false} AllNamesRead(exports: seq<ExportEntry>)
    requires forall e :: e in exports ==> e.kind <= 3
    ensures NamesRead(exports) == Names(exports)
  {
    if exports != [] {
      AllNamesRead(exports[1..]);
    }
  }

  lemma {:induction false} ExportNamesEncoded(exports: seq<ExportEntry>, tail: Data)
    requires forall e :: e in exports ==> |e.name| < U32 && e.index < U32
    ensures ExportNames(|exports|, EncodeAll(exports, EncodeExport()) + tail) == NamesRead(exports)
  {
    hide Name, ExportTail, EncodeAll, Encode, EncodeExport, ExportNames, Export;
    AllUnfold(exports, EncodeExport());
    NamesUnfold(0, tail);
    if exports == [] {
      assert EncodeAll(exports, EncodeExport()) + tail == tail;
    } else {
      var rest := EncodeAll(exports[1..], EncodeExport()) + tail;
      var data := EncodeAll(exports, EncodeExport()) + tail;
      assert data == EncodeExport()(exports[0]) + rest;
      NamesUnfold(|exports|, data);
      ExportEncoded(exports[0], rest);
      ExportTailEncoded(exports[0], rest);
      ExportNamesEncoded(exports[1..], tail);
    }
  }

  lemma AllUnfold<T>(xs: seq<T>, enc: T -> Data)
    ensures EncodeAll(xs, enc) == if xs == [] then [] else enc(xs[0]) + EncodeAll(xs[1..], enc)
  {
  }

  /** Encoded exports are accepted exactly when there are at most 64, all of a known kind, and
      then the report gains exactly their names, in order. */
  lemma {:induction false} ExportsDecided(exports: seq<ExportEntry>, tail: Data, forbidden: seq<Data>)
    requires |exports| < U32 && forall e :: e in exports ==> |e.name| < U32 && e.index < U32
    ensures var data := Encode(|exports|) + EncodeAll(exports, EncodeExport()) + tail;
            (SectionOk(7, data, forbidden) <==>
               |exports| <= 64 && forall k :: 0 <= k < |exports| ==> exports[k].kind <= 3) &&
            ExportedNames(data) == (if |exports| > 64 then [] else NamesRead(exports)) &&
            (SectionOk(7, data, forbidden) ==> ExportedNames(data) == Names(exports))
  {
    hide *;
    var vector := EncodeAll(exports, EncodeExport()) + tail;
    var data := Encode(|exports|) + vector;
    assert Encode(|exports|) + EncodeAll(exports, EncodeExport()) + tail == data;
    ExportsDecide(exports);
    VectorDecides(exports, EncodeExport(), KnownKind(), Export, 64, tail);
    NumberEncoded(|exports|, vector);
    SectionKinds(data, forbidden);
    AllKnown(exports);
    ExportNamesEncoded(exports, tail);
    if All(exports, KnownKind()) {
      AllNamesRead(exports);
    }
  }

  lemma AllKnown(exports: seq<ExportEntry>)
    ensures All(exports, KnownKind()) <==> forall k :: 0 <= k < |exports| ==> exports[k].kind <= 3
    ensures All(exports, KnownKind()) ==> forall e :: e in exports ==> e.kind <= 3
  {
    assert forall k :: 0 <= k < |exports| ==> (KnownKind()(exports[k]) <==> exports[k].kind <= 3);
  }

  // ---------- Function bodies ----------

  datatype LocalGroup = LocalGroup(count: nat, kind: byte)

  datatype Body = Body(locals: seq<LocalGroup>, code: Data)

  function EncodeLocal(): LocalGroup -> Data
  {
    (l: LocalGroup) => Encode(l.count) + [l.kind]
  }

  function NotFloat(): LocalGroup -> bool
  {
    (l: LocalGroup) => !IsFloat(l.kind)
  }

  function EncodeBody(b: Body): Data
  {
    Encode(|b.locals|) + EncodeAll(b.locals, EncodeLocal()) + b.code
  }

  function SizedBody(): Body -> Data
  {
    (b: Body) => EncodeName(EncodeBody(b))
  }

  predicate BodyOk(b: Body)
  {
    All(b.locals, NotFloat()) && ScanOk(b.code)
  }

  function GoodBody(): Body -> bool
  {
    (b: Body) => BodyOk(b)
  }

  predicate BodyFits(b: Body)
  {
    |b.locals| < U32 && |EncodeBody(b)| < U32 && forall l :: l in b.locals ==> l.count < U32
  }

  lemma LocalEncoded(l: LocalGroup, rest: Data)
    requires l.count < U32
    ensures Local(EncodeLocal()(l) + rest) == if NotFloat()(l) then Some(rest) else None
  {
    hide Encode, Number;
    assert EncodeLocal()(l) + rest == Encode(l.count) + ([l.kind] + rest);
    NumberEncoded(l.count, [l.kind] + rest);
  }

  lemma LocalsDecide(locals: seq<LocalGroup>)
    requires forall l :: l in locals ==> l.count < U32
    ensures Decides(locals, EncodeLocal(), NotFloat(), Local)
  {
    hide Number, Encode;
    var item: Parser, enc, good := Local, EncodeLocal(), NotFloat();
    forall l, rest {:trigger item(enc(l) + rest)} | l in locals
      ensures item(enc(l) + rest) == if good(l) then Some(rest) else None
    {
      LocalEncoded(l, rest);
    }
  }

  lemma BodyDecided(b: Body)
    requires BodyFits(b)
    ensures FunctionOk(EncodeBody(b)) <==> BodyOk(b)
  {
    hide Encode, Number, Repeat, EncodeAll, ScanOk, All, Decides, EncodeLocal;
    var vector := EncodeAll(b.locals, EncodeLocal()) + b.code;
    assert EncodeBody(b) == Encode(|b.locals|) + vector;
    NumberEncoded(|b.locals|, vector);
    LocalsDecide(b.locals);
    RepeatDecides(b.locals, EncodeLocal(), NotFloat(), Local, b.code);
  }

  lemma SizedBodyEncoded(b: Body, rest: Data)
    requires BodyFits(b)
    ensures Function(SizedBody()(b) + rest) == if GoodBody()(b) then Some(rest) else None
  {
    hide FunctionOk, Name, EncodeName, EncodeBody, BodyOk;
    NameEncoded(EncodeBody(b), rest);
    BodyDecided(b);
  }

  lemma BodiesDecide(bodies: seq<Body>)
    requires forall b :: b in bodies ==> BodyFits(b)
    ensures Decides(bodies, SizedBody(), GoodBody(), Function)
  {
    hide FunctionOk, Name, EncodeName, EncodeBody, BodyOk, BodyFits;
    var item: Parser, enc, good := Function, SizedBody(), GoodBody();
    forall b, rest {:trigger item(enc(b) + rest)} | b in bodies
      ensures item(enc(b) + rest) == if good(b) then Some(rest) else None
    {
      SizedBodyEncoded(b, rest);
    }
  }

  /** The auditor's table of forbidden opcodes, by rows. */
  const ROW_3: set<byte> := {0x38, 0x39, 0x3A, 0x3B, 0x43, 0x44}
  const ROW_9: set<byte> := {0x91, 0x92, 0x93, 0x94, 0x95, 0x96, 0x97, 0x98, 0x99, 0x9A, 0x9B, 0x9C, 0x9D, 0x9E, 0x9F}
  const ROW_A: set<byte> :=
    {0xA0, 0xA1, 0xA2, 0xA3, 0xA4, 0xA5, 0xA6, 0xA7, 0xA8, 0xA9, 0xAA, 0xAB, 0xAC, 0xAD, 0xAE, 0xAF}
  const ROW_B: set<byte> :=
    {0xB0, 0xB1, 0xB2, 0xB3, 0xB4, 0xB5, 0xB6, 0xB7, 0xB8, 0xB9, 0xBA, 0xBB, 0xBC, 0xBD, 0xBE, 0xBF}
  const ROW_C: set<byte> := {0xC0, 0xC1, 0xC2, 0xC3, 0xC4, 0xC5, 0xC6, 0xC7, 0xC8, 0xC9, 0xCA, 0xCB, 0xCC, 0xCD}
  const FORBIDDEN_OPCODES: set<byte> := ROW_3 + ROW_9 + ROW_A + ROW_B + ROW_C

  /** No float local (0x7D and 0x7C), and at no byte position a byte of the table, a SIMD or thread
      prefix, or the bulk-memory prefix before one of its opcodes 0 to 11. */
  predicate Allowed(b: Body)
  {
    (forall l :: l in b.locals ==> l.kind != 0x7D && l.kind != 0x7C)
    && forall k :: 0 <= k < |b.code| ==>
         b.code[k] !in FORBIDDEN_OPCODES && b.code[k] != 0xFD && b.code[k] != 0xFE
         && !(b.code[k] == 0xFC && k + 1 < |b.code| && b.code[k + 1] <= 11)
  }

  lemma OpcodeTable(b: byte)
    ensures ForbiddenOpcode(b) <==> b in FORBIDDEN_OPCODES || b == 0xFD || b == 0xFE
  {
    hide ROW_3, ROW_9, ROW_A, ROW_B, ROW_C;
    LowRows(b);
    RowA(b);
    RowB(b);
    RowC(b);
  }

  lemma LowRows(b: byte)
    ensures b in ROW_3 <==> 0x38 <= b <= 0x3B || b == 0x43 || b == 0x44
    ensures b in ROW_9 <==> 0x91 <= b <= 0x9F
  {
  }

  lemma RowA(b: byte)
    ensures b in ROW_A <==> 0xA0 <= b <= 0xAF
  {
  }

  lemma RowB(b: byte)
    ensures b in ROW_B <==> 0xB0 <= b <= 0xBF
  {
  }

  lemma RowC(b: byte)
    ensures b in ROW_C <==> 0xC0 <= b <= 0xCD
  {
  }

  lemma BodyAllowed(b: Body)
    ensures BodyOk(b) <==> Allowed(b)
  {
    hide ForbiddenOpcode, FORBIDDEN_OPCODES;
    assert forall k :: 0 <= k < |b.locals| ==> (NotFloat()(b.locals[k]) <==> !IsFloat(b.locals[k].kind));
    assert forall k :: 0 <= k < |b.locals| ==> b.locals[k] in b.locals;
    forall k | 0 <= k < |b.code|
      ensures ForbiddenOpcode(b.code[k]) <==>
              b.code[k] in FORBIDDEN_OPCODES || b.code[k] == 0xFD || b.code[k] == 0xFE
    {
      OpcodeTable(b.code[k]);
    }
  }

  /** Encoded bodies are accepted exactly when all of them are allowed. */
  lemma {:induction false} CodeDecided(bodies: seq<Body>, tail: Data, forbidden: seq<Data>)
    requires |bodies| < U32 && forall b :: b in bodies ==> BodyFits(b)
    ensures SectionOk(10, Encode(|bodies|) + EncodeAll(bodies, SizedBody()) + tail, forbidden) <==>
            forall k :: 0 <= k < |bodies| ==> Allowed(bodies[k])
  {
    hide *;
    forall k | 0 <= k < |bodies|
      ensures BodyOk(bodies[k]) <==> Allowed(bodies[k])
    {
      BodyAllowed(bodies[k]);
    }
    BodiesDecide(bodies);
    VectorDecides(bodies, SizedBody(), GoodBody(), Function, U32, tail);
    SectionKinds(Encode(|bodies|) + EncodeAll(bodies, SizedBody()) + tail, forbidden);
    AllGood(bodies);
  }

  lemma AllGood(bodies: seq<Body>)
    ensures All(bodies, GoodBody()) <==> forall k :: 0 <= k < |bodies| ==> BodyOk(bodies[k])
  {
    hide BodyOk;
    assert forall k :: 0 <= k < |bodies| ==> (GoodBody()(bodies[k]) <==> BodyOk(bodies[k]));
  }

  // ---------- Framing ----------

  datatype Section = Section(kind: byte, data: Data)

  function Frame(s: Section): Data
  {
    [s.kind] + EncodeName(s.data)
  }

  function Frames(sections: seq<Section>): Data
  {
    if sections == [] then [] else Frame(sections[0]) + Frames(sections[1..])
  }

  function AfterAll(sections: seq<Section>, forbidden: seq<Data>, r: Report): Report
  {
    if sections == [] then r
    else AfterAll(sections[1..], forbidden, AfterSection(sections[0].kind, sections[0].data, forbidden, r))
  }

  lemma {:induction false} FrameRead(s: Section, rest: Data, forbidden: seq<Data>, r: Report)
    requires |s.data| < U32
    ensures Sections(Frame(s) + rest, forbidden, r) ==
            Sections(rest, forbidden, AfterSection(s.kind, s.data, forbidden, r))
  {
    hide Encode, Number, AfterSection, Sections;
    var data := Frame(s) + rest;
    assert data[0] == s.kind && data[1..] == Encode(|s.data|) + (s.data + rest);
    NumberEncoded(|s.data|, s.data + rest);
    assert (s.data + rest)[..|s.data|] == s.data && (s.data + rest)[|s.data|..] == rest;
    SectionsUnfold(data, forbidden, r);
  }

  lemma {:induction false} FramesRead(sections: seq<Section>, tail: Data, forbidden: seq<Data>, r: Report)
    requires forall s :: s in sections ==> |s.data| < U32
    ensures Sections(Frames(sections) + tail, forbidden, r) == Sections(tail, forbidden, AfterAll(sections, forbidden, r))
    decreases |sections|
  {
    hide Sections, AfterSection, Frame;
    if sections == [] {
      assert Frames(sections) + tail == tail;
    } else {
      var rest := Frames(sections[1..]) + tail;
      assert Frames(sections) + tail == Frame(sections[0]) + rest;
      FrameRead(sections[0], rest, forbidden, r);
      FramesRead(sections[1..], tail, forbidden, AfterSection(sections[0].kind, sections[0].data, forbidden, r));
    }
  }

  lemma {:induction false} AfterAllOk(sections: seq<Section>, forbidden: seq<Data>, r: Report)
    ensures AfterAll(sections, forbidden, r).ok <==>
            r.ok && forall k :: 0 <= k < |sections| ==> SectionOk(sections[k].kind, sections[k].data, forbidden)
    decreases |sections|
  {
    hide SectionOk;
    if sections != [] {
      var s := sections[0];
      AfterAllOk(sections[1..], forbidden, AfterSection(s.kind, s.data, forbidden, r));
      assert forall k :: 1 <= k < |sections| ==> sections[k] == sections[1..][k - 1];
      assert forall k :: 0 <= k < |sections| - 1 ==> sections[1..][k] == sections[k + 1];
    }
  }

  const HEADER: Data := [0x00, 0x61, 0x73, 0x6d, 0x01, 0x00, 0x00, 0x00]

  /** After the header and any correctly framed sections, the section loop is where they end. */
  lemma HeaderRead(sections: seq<Section>, tail: Data, forbidden: seq<Data>)
    requires forall s :: s in sections ==> |s.data| < U32
    ensures Audit(HEADER + Frames(sections) + tail, forbidden) ==
            Sections(tail, forbidden, AfterAll(sections, forbidden, Report(true, 0, [])))
  {
    hide Sections, Frames, AfterAll;
    var wasm := HEADER + Frames(sections) + tail;
    assert wasm[..4] == [0x00, 0x61, 0x73, 0x6d] && wasm[4..8] == [0x01, 0x00, 0x00, 0x00];
    assert wasm[8..] == Frames(sections) + tail;
    FramesRead(sections, tail, forbidden, Report(true, 0, []));
  }

  /** Anything that does not begin with the header is refused, unread. */
  lemma HeaderNeeded(wasm: Data, forbidden: seq<Data>)
    requires !(HEADER <= wasm)
    ensures Audit(wasm, forbidden) == Report(false, 0, [])
  {
    hide Sections;
    if |wasm| >= 8 {
      var magic, version := wasm[..4], wasm[4..8];
      FourBytes(magic, [0x00, 0x61, 0x73, 0x6d]);
      FourBytes(version, [0x01, 0x00, 0x00, 0x00]);
      assert wasm[..8] == magic + version;
    }
  }

  lemma FourBytes(d: Data, e: Data)
    requires |d| == |e| == 4
    ensures LittleEndian32(d) == LittleEndian32(e) <==> d == e
  {
    if LittleEndian32(d) == LittleEndian32(e) {
      var d1: int, d2: int, d3: int := d[1], d[2], d[3];
      var e1: int, e2: int, e3: int := e[1], e[2], e[3];
      LowByte(d[0], d1 + 0x100 * d2 + 0x10000 * d3, e[0], e1 + 0x100 * e2 + 0x10000 * e3);
      LowByte(d[1], d2 + 0x100 * d3, e[1], e2 + 0x100 * e3);
      LowByte(d[2], d3, e[2], e3);
    }
  }

  lemma LowByte(a: byte, x: int, b: byte, y: int)
    requires a + 0x100 * x == b + 0x100 * y
    ensures a == b && x == y
  {
  }

  /** A header followed by any correctly framed sections, and at most one stray byte, is accepted
      exactly when the auditor of every section accepts. */
  lemma {:induction false} ModuleDecided(sections: seq<Section>, tail: Data, forbidden: seq<Data>)
    requires |tail| <= 1 && forall s :: s in sections ==> |s.data| < U32
    ensures Audit(HEADER + Frames(sections) + tail, forbidden) == AfterAll(sections, forbidden, Report(true, 0, []))
    ensures Audit(HEADER + Frames(sections) + tail, forbidden).ok <==>
            forall k :: 0 <= k < |sections| ==> SectionOk(sections[k].kind, sections[k].data, forbidden)
  {
    hide Sections, Frames, AfterAll, SectionOk, Audit;
    HeaderRead(sections, tail, forbidden);
    SectionsUnfold(tail, forbidden, AfterAll(sections, forbidden, Report(true, 0, [])));
    AfterAllOk(sections, forbidden, Report(true, 0, []));
  }

  /** A section whose size is unreadable, or more than what is left, is refused; the sections before
      it are reported, and what follows its kind is not read. */
  lemma BrokenSectionRefused(sections: seq<Section>, kind: byte, size: nat, left: Data, forbidden: seq<Data>)
    requires forall s :: s in sections ==> |s.data| < U32
    requires |left| < size < U32
    ensures var before := AfterAll(sections, forbidden, Report(true, 0, []));
            Audit(HEADER + Frames(sections) + ([kind] + Encode(size) + left), forbidden) == before.(ok := false)
            && Audit(HEADER + Frames(sections) + ([kind, 0x80, 0x80, 0x80, 0x80, 0x80] + left), forbidden) ==
               before.(ok := false)
  {
    hide Sections, Frames, AfterAll, Audit, Encode, Number, Read;
    var before := AfterAll(sections, forbidden, Report(true, 0, []));
    var short, endless := [kind] + Encode(size) + left, [kind, 0x80, 0x80, 0x80, 0x80, 0x80] + left;
    HeaderRead(sections, short, forbidden);
    HeaderRead(sections, endless, forbidden);
    SectionsUnfold(short, forbidden, before);
    SectionsUnfold(endless, forbidden, before);
    assert short[1..] == Encode(size) + left;
    NumberEncoded(size, left);
    NumberUnreadable(endless[1..]);
  }

  lemma NumberUnreadable(data: Data)
    ensures Number(data) == None <==> data == [] || (|data| >= 5 && forall k :: 0 <= k < 5 ==> data[k] >= 128)
  {
    hide Read;
    ReadBounds(data);
  }

  /** Sections of a kind without an auditor, function, global, start, element and data sections among
      them, change nothing, wherever they stand and whatever they hold. */
  lemma OtherKindsIgnored(before: seq<Section>, kind: byte, data: Data, after: seq<Section>, forbidden: seq<Data>)
    requires kind !in {0, 1, 2, 4, 5, 7, 10} && |data| < U32
    requires forall s :: s in before + after ==> |s.data| < U32
    ensures Audit(HEADER + Frames(before + [Section(kind, data)] + after), forbidden) ==
            Audit(HEADER + Frames(before + after), forbidden)
  {
    hide Frames, AfterAll, Audit, AfterSection;
    var r0 := Report(true, 0, []);
    var other, middle := [Section(kind, data)], before + [Section(kind, data)];
    assert forall s :: s in middle + after ==> s in before + after || s in other;
    assert forall x: Data :: x + [] == x;
    ModuleDecided(middle + after, [], forbidden);
    ModuleDecided(before + after, [], forbidden);
    AfterJoined(middle, after, forbidden, r0);
    AfterJoined(before, other, forbidden, r0);
    AfterJoined(before, after, forbidden, r0);
    NothingAfter(kind, data, forbidden, AfterAll(before, forbidden, r0));
  }

  lemma NothingAfter(kind: byte, data: Data, forbidden: seq<Data>, r: Report)
    requires kind !in {0, 1, 2, 4, 5, 7, 10}
    ensures AfterAll([Section(kind, data)], forbidden, r) == r
  {
    assert [Section(kind, data)][1..] == [];
  }

  lemma {:induction false} AfterJoined(first: seq<Section>, second: seq<Section>, forbidden: seq<Data>, r: Report)
    ensures AfterAll(first + second, forbidden, r) == AfterAll(second, forbidden, AfterAll(first, forbidden, r))
    decreases |first|
  {
    hide AfterSection;
    if first == [] {
      assert first + second == second;
    } else {
      assert (first + second)[1..] == first[1..] + second;
      AfterJoined(first[1..], second, forbidden, AfterSection(first[0].kind, first[0].data, forbidden, r));
    }
  }

  // ---------- Custom sections, and sections cut short ----------

  /** The text stands somewhere in the name. */
  predicate Holds(name: Data, text: Data)
  {
    exists i :: 0 <= i <= |name| && text <= name[i..]
  }

  /** A custom section with a whole name is accepted exactly when no forbidden text stands in the
      name, whatever follows it; so is an empty one, and not one whose name is cut short. */
  lemma CustomDecided(name: Data, tail: Data, forbidden: seq<Data>)
    requires |name| < U32
    ensures SectionOk(0, EncodeName(name) + tail, forbidden) <==>
            forall f :: f in forbidden ==> !Holds(name, f)
    ensures SectionOk(0, [], forbidden)
    ensures forall cut :: 0 <= cut < |name| ==> !SectionOk(0, Encode(|name|) + name[..cut], forbidden)
  {
    hide Name, EncodeName, Encode, Contains, Holds;
    NameEncoded(name, tail);
    assert EncodeName(name) + tail != [] by {
      hide *;
      EncodedNonEmpty(name, tail);
    }
    forall f | f in forbidden
      ensures Contains(name, f) <==> Holds(name, f)
    {
      ContainsHolds(name, f);
    }
    assert forall k :: 0 <= k < |forbidden| ==> forbidden[k] in forbidden;
    forall cut | 0 <= cut < |name|
      ensures !SectionOk(0, Encode(|name|) + name[..cut], forbidden)
    {
      NameCut(|name|, name[..cut]);
    }
  }

  lemma EncodedNonEmpty(name: Data, tail: Data)
    ensures EncodeName(name) + tail != []
  {
    assert |Encode(|name|)| > 0;
  }

  lemma NameCut(n: nat, left: Data)
    requires |left| < n < U32
    ensures Name(Encode(n) + left) == None
  {
    hide Encode, Number;
    NumberEncoded(n, left);
  }

  lemma ContainsHolds(name: Data, text: Data)
    ensures Contains(name, text) <==> Holds(name, text)
  {
    if Contains(name, text) {
      var i :| 0 <= i <= |name| - |text| && OccursAt(name, text, i);
      assert text <= name[i..];
    }
    if Holds(name, text) {
      var i :| 0 <= i <= |name| && text <= name[i..];
      assert name[i..][..|text|] == name[i..i + |text|];
      assert OccursAt(name, text, i);
    }
  }

  /** Items that are counted must be there: a section that ends after a count other than 0 is
      refused, whatever its auditor. */
  lemma CountedItemsNeeded(kind: byte, n: nat, forbidden: seq<Data>)
    requires kind in {1, 2, 4, 5, 7, 10} && 0 < n < U32
    ensures !SectionOk(kind, Encode(n), forbidden)
  {
    hide Encode, Number, Read;
    NumberEncoded(n, []);
    NumberUnreadable([]);
    assert Encode(n) + [] == Encode(n);
    RepeatUnfold(n, [], FunctionType);
    RepeatUnfold(n, [], Import);
    RepeatUnfold(n, [], Table);
    RepeatUnfold(n, [], Export);
    RepeatUnfold(n, [], Function);
  }

  // ---------- More than one section of a kind ----------

  /** An export section for each group of exports. */
  function ExportSections(groups: seq<seq<ExportEntry>>): (sections: seq<Section>)
    ensures |sections| == |groups|
    ensures forall k :: 0 <= k < |groups| ==> sections[k] == Section(7, EncodeExports(groups[k]))
  {
    seq(|groups|, k requires 0 <= k < |groups| => Section(7, EncodeExports(groups[k])))
  }

  function EncodeExports(exports: seq<ExportEntry>): Data
  {
    Encode(|exports|) + EncodeAll(exports, EncodeExport())
  }

  function AllNames(groups: seq<seq<ExportEntry>>): seq<Data>
  {
    if groups == [] then [] else Names(groups[0]) + AllNames(groups[1..])
  }

  predicate ExportsFit(exports: seq<ExportEntry>)
  {
    |exports| < U32 && |EncodeExports(exports)| < U32
    && forall e :: e in exports ==> |e.name| < U32 && e.index < U32
  }

  predicate GroupOk(exports: seq<ExportEntry>)
  {
    |exports| <= 64 && forall k :: 0 <= k < |exports| ==> exports[k].kind <= 3
  }

  lemma GroupDecided(exports: seq<ExportEntry>, forbidden: seq<Data>, r: Report)
    requires ExportsFit(exports)
    ensures SectionOk(7, EncodeExports(exports), forbidden) <==> GroupOk(exports)
    ensures GroupOk(exports) ==>
              AfterSection(7, EncodeExports(exports), forbidden, r) == r.(exports := r.exports + Names(exports))
  {
    hide SectionOk, ExportedNames, Encode, EncodeAll, EncodeExport;
    ExportsDecided(exports, [], forbidden);
    assert EncodeExports(exports) + [] == EncodeExports(exports);
  }

  lemma {:induction false} GroupsReported(groups: seq<seq<ExportEntry>>, forbidden: seq<Data>, r: Report)
    requires forall k :: 0 <= k < |groups| ==> ExportsFit(groups[k]) && GroupOk(groups[k])
    ensures AfterAll(ExportSections(groups), forbidden, r) == r.(exports := r.exports + AllNames(groups))
    decreases |groups|
  {
    hide ExportsFit, GroupOk, AfterSection, EncodeExports, Names;
    if groups != [] {
      GroupDecided(groups[0], forbidden, r);
      assert ExportSections(groups)[1..] == ExportSections(groups[1..]);
      GroupsReported(groups[1..], forbidden, r.(exports := r.exports + Names(groups[0])));
    }
  }

  /** The limit of 64 exports is one of each section, and sections may be repeated: a module of any
      export sections is accepted exactly when each of them is, and the report lists them all. */
  lemma ExportLimitIsPerSection(groups: seq<seq<ExportEntry>>, forbidden: seq<Data>)
    requires forall k :: 0 <= k < |groups| ==> ExportsFit(groups[k])
    ensures var r := Audit(HEADER + Frames(ExportSections(groups)), forbidden);
            (r.ok <==> forall k :: 0 <= k < |groups| ==> GroupOk(groups[k])) && (r.ok ==> r.exports == AllNames(groups))
  {
    hide GroupOk, AfterSection, EncodeExports, Names, SectionOk, Frames, Audit, AfterAll;
    var sections := ExportSections(groups);
    forall k | 0 <= k < |groups|
      ensures SectionOk(sections[k].kind, sections[k].data, forbidden) <==> GroupOk(groups[k])
    {
      GroupDecided(groups[k], forbidden, Report(true, 0, []));
    }
    assert HEADER + Frames(sections) + [] == HEADER + Frames(sections);
    ModuleDecided(sections, [], forbidden);
    if forall k :: 0 <= k < |groups| ==> GroupOk(groups[k]) {
      GroupsReported(groups, forbidden, Report(true, 0, []));
    }
  }

  /** So for every number there is an accepted module with that many exports. */
  lemma AnyNumberOfExports(n: nat, forbidden: seq<Data>) returns (wasm: Data)
    ensures Audit(wasm, forbidden).ok && |Audit(wasm, forbidden).exports| == n
  {
    hide Audit, Frames, ExportsFit, GroupOk;
    var one := [ExportEntry([], 0, 0)];
    var groups := seq(n, _ => one);
    wasm := HEADER + Frames(ExportSections(groups));
    OneExportFits();
    ExportLimitIsPerSection(groups, forbidden);
    NamesCounted(groups);
  }

  lemma OneExportFits()
    ensures var one := [ExportEntry([], 0, 0)];
            ExportsFit(one) && GroupOk(one)
  {
    var one := [ExportEntry([], 0, 0)];
    assert Encode(0) == [0] && Encode(1) == [1];
    assert EncodeAll(one[1..], EncodeExport()) == [];
    assert EncodeExport()(one[0]) == [0, 0, 0];
  }

  lemma {:induction false} NamesCounted(groups: seq<seq<ExportEntry>>)
    requires forall k :: 0 <= k < |groups| ==> |groups[k]| == 1
    ensures |AllNames(groups)| == |groups|
  {
    if groups != [] {
      assert Names(groups[0][1..]) == [];
      NamesCounted(groups[1..]);
    }
  }
}
