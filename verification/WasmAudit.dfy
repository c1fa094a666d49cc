/** The WebAssembly module auditor (engine/runtime/audit.go). Parsers over byte strings say what
    each section auditor accepts; the methods walk the same bytes by offset. */
module WasmAudit {
  import opened Bytes
  import opened Common
  import opened Leb128

  type Data = seq<byte>

  /** A parser consumes a prefix and returns the rest, or fails. */
  type Parser = Data -> Option<Data>

  const MAGIC: nat := 0x6d736100
  const VERSION: nat := 1
  const MAX_MEMORY_PAGES: nat := 256
  const MAX_TABLE_SIZE: nat := 1024
  const MAX_EXPORTS: nat := 64
  const MAX_IMPORTS: nat := 32

  /** The only import namespace allowed, "accumen". */
  const ACCUMEN: Data := [0x61, 0x63, 0x63, 0x75, 0x6d, 0x65, 0x6e]

  // ---------- What is accepted ----------

  function Number(data: Data): (r: Option<(nat, Data)>)
    ensures r.Some? ==> r.value.0 < U32
  {
    ReadBounds(data);
    var (v, n) := Read(data);
    if n == 0 then None else Some((v, data[n..]))
  }

  function Index(data: Data): Option<Data>
  {
    match Number(data) case None => None case Some((_, rest)) => Some(rest)
  }

  function Name(data: Data): Option<(Data, Data)>
  {
    match Number(data)
    case None => None
    case Some((n, rest)) => if n <= |rest| then Some((rest[..n], rest[n..])) else None
  }

  function Repeat(count: nat, data: Data, item: Parser): Option<Data>
  {
    if count == 0 then Some(data)
    else match item(data)
      case None => None
      case Some(rest) => Repeat(count - 1, rest, item)
  }

  /** A counted vector within a limit on its size. */
  predicate VectorOk(data: Data, limit: nat, item: Parser)
  {
    match Number(data)
    case None => false
    case Some((count, rest)) => count <= limit && Repeat(count, rest, item).Some?
  }

  predicate IsFloat(t: byte)
  {
    t == 0x7D || t == 0x7C
  }

  /** A counted vector of value types, none of them a float. */
  function ValueTypes(data: Data): Option<Data>
  {
    match Number(data)
    case None => None
    case Some((n, rest)) =>
      if n <= |rest| && forall k :: 0 <= k < n ==> !IsFloat(rest[k]) then Some(rest[n..]) else None
  }

  function FunctionType(data: Data): Option<Data>
  {
    if data == [] || data[0] != 0x60 then None
    else match ValueTypes(data[1..])
      case None => None
      case Some(rest) => ValueTypes(rest)
  }

  /** A flag byte, a minimum and, when the flag is 1, a maximum, each within `most`. */
  function Limits(data: Data, most: nat): Option<Data>
  {
    if data == [] then None
    else match Number(data[1..])
      case None => None
      case Some((min, rest)) =>
        if min > most then None
        else if data[0] != 1 then Some(rest)
        else match Number(rest)
          case None => None
          case Some((max, rest')) => if max > most then None else Some(rest')
  }

  function ImportDescriptor(kind: byte, data: Data): Option<Data>
  {
    match kind
    case 0 => Index(data)
    case 1 => if |data| < 2 then None else Limits(data[1..], U32)
    case 2 => Limits(data, U32)
    case 3 => if |data| < 2 then None else Some(data[2..])
    case _ => Some(data)
  }

  function Import(data: Data): Option<Data>
  {
    match Name(data)
    case None => None
    case Some((namespace, rest)) =>
      match Name(rest)
      case None => None
      case Some((_, rest')) =>
        if rest' == [] || namespace != ACCUMEN then None else ImportDescriptor(rest'[0], rest'[1..])
  }

  function Table(data: Data): Option<Data>
  {
    if data == [] then None else Limits(data[1..], MAX_TABLE_SIZE)
  }

  function ExportTail(data: Data): Option<Data>
  {
    if data == [] || data[0] > 3 then None else Index(data[1..])
  }

  function Export(data: Data): Option<Data>
  {
    match Name(data) case None => None case Some((_, rest)) => ExportTail(rest)
  }

  /** The names recorded before the first export that fails. */
  function ExportNames(count: nat, data: Data): seq<Data>
  {
    if count == 0 then []
    else match Name(data)
      case None => []
      case Some((name, rest)) =>
        [name] + match ExportTail(rest) case None => [] case Some(rest') => ExportNames(count - 1, rest')
  }

  function Local(data: Data): Option<Data>
  {
    match Number(data)
    case None => None
    case Some((_, rest)) => if rest == [] || IsFloat(rest[0]) then None else Some(rest[1..])
  }

  predicate ForbiddenOpcode(b: byte)
  {
    0x38 <= b <= 0x3B || b == 0x43 || b == 0x44 || 0x91 <= b <= 0xCD || b == 0xFD || b == 0xFE
  }

  /** No forbidden byte, and no bulk-memory pair, at any position. */
  predicate ScanOk(code: Data)
  {
    forall k :: 0 <= k < |code| ==>
      !ForbiddenOpcode(code[k]) && !(code[k] == 0xFC && k + 1 < |code| && code[k + 1] <= 11)
  }

  predicate FunctionOk(body: Data)
  {
    match Number(body)
    case None => false
    case Some((locals, rest)) =>
      match Repeat(locals, rest, Local) case None => false case Some(code) => ScanOk(code)
  }

  function Function(data: Data): Option<Data>
  {
    match Name(data)
    case None => None
    case Some((body, rest)) => if FunctionOk(body) then Some(rest) else None
  }

  predicate Contains(s: Data, part: Data)
  {
    exists i :: 0 <= i <= |s| - |part| && OccursAt(s, part, i)
  }

  predicate OccursAt(s: Data, part: Data, i: nat)
  {
    i + |part| <= |s| && s[i..i + |part|] == part
  }

  predicate CustomOk(data: Data, forbidden: seq<Data>)
  {
    data == [] ||
    match Name(data)
    case None => false
    case Some((name, _)) => forall k :: 0 <= k < |forbidden| ==> !Contains(name, forbidden[k])
  }

  predicate MemoryOk(data: Data)
  {
    match Number(data)
    case None => false
    case Some((count, rest)) => count == 0 || (count == 1 && Limits(rest, MAX_MEMORY_PAGES).Some?)
  }

  /** The page count a memory section leaves in the report: its maximum, else its minimum. */
  function MemoryPages(data: Data, before: nat): nat
  {
    match Number(data)
    case None => before
    case Some((count, rest)) => if count != 1 then before else LimitPages(rest, before)
  }

  function LimitPages(data: Data, before: nat): nat
  {
    if data == [] then before
    else match Number(data[1..])
      case None => before
      case Some((min, rest)) =>
        if min > MAX_MEMORY_PAGES then before
        else if data[0] != 1 then min
        else match Number(rest)
          case None => min
          case Some((max, _)) => if max > MAX_MEMORY_PAGES then min else max
  }

  /** What the auditor of each section kind accepts; other kinds pass. */
  predicate SectionOk(kind: byte, data: Data, forbidden: seq<Data>)
  {
    match kind
    case 0 => CustomOk(data, forbidden)
    case 1 => VectorOk(data, U32, FunctionType)
    case 2 => VectorOk(data, MAX_IMPORTS, Import)
    case 4 => VectorOk(data, U32, Table)
    case 5 => MemoryOk(data)
    case 7 => VectorOk(data, MAX_EXPORTS, Export)
    case 10 => VectorOk(data, U32, Function)
    case _ => true
  }

  datatype Report = Report(ok: bool, memPages: nat, exports: seq<Data>)

  function ExportedNames(data: Data): seq<Data>
  {
    match Number(data)
    case None => []
    case Some((count, rest)) => if count > MAX_EXPORTS then [] else ExportNames(count, rest)
  }

  function AfterSection(kind: byte, data: Data, forbidden: seq<Data>, r: Report): Report
  {
    Report(r.ok && SectionOk(kind, data, forbidden),
           if kind == 5 then MemoryPages(data, r.memPages) else r.memPages,
           if kind == 7 then r.exports + ExportedNames(data) else r.exports)
  }

  /** The section loop; a lone trailing byte ends it. */
  function Sections(data: Data, forbidden: seq<Data>, r: Report): Report
    decreases |data|
  {
    if |data| < 2 then r
    else match Number(data[1..])
      case None => r.(ok := false)
      case Some((size, rest)) =>
        NumberShortens(data[1..]);
        if size > |rest| then r.(ok := false)
        else Sections(rest[size..], forbidden, AfterSection(data[0], rest[..size], forbidden, r))
  }

  lemma NumberShortens(data: Data)
    ensures Number(data).Some? ==> |Number(data).value.1| < |data|
  {
    ReadBounds(data);
  }

  function LittleEndian32(data: Data): nat
    requires |data| == 4
  {
    var b0: nat, b1: nat, b2: nat, b3: nat := data[0], data[1], data[2], data[3];
    b0 + 0x100 * b1 + 0x10000 * b2 + 0x1000000 * b3
  }

  function Audit(wasm: Data, forbidden: seq<Data>): Report
  {
    if |wasm| < 8 || LittleEndian32(wasm[..4]) != MAGIC || LittleEndian32(wasm[4..8]) != VERSION
    then Report(false, 0, [])
    else Sections(wasm[8..], forbidden, Report(true, 0, []))
  }

  // ---------- The auditors, by offset ----------

  lemma NumberAt(data: Data, offset: nat)
    requires offset <= |data|
    ensures var (v, n) := Read(data[offset..]);
            offset + n <= |data| && v < U32 &&
            Number(data[offset..]) == if n == 0 then None else Some((v, data[offset + n..]))
  {
    ReadBounds(data[offset..]);
    var (v, n) := Read(data[offset..]);
    assert data[offset..][n..] == data[offset + n..];
  }

  lemma RepeatUnfold(count: nat, data: Data, item: Parser)
    ensures Repeat(0, data, item) == Some(data)
    ensures count > 0 ==>
              Repeat(count, data, item) ==
              match item(data) case None => None case Some(rest) => Repeat(count - 1, rest, item)
  {
  }

  /** An offset method's promise: it stops where the parser's rest begins. */
  ghost predicate Stops(r: Option<Data>, data: Data, ok: bool, offset: nat)
  {
    (ok <==> r.Some?) && (ok ==> offset <= |data| && r == Some(data[offset..]))
  }

  method SkipNumber(data: Data, start: nat) returns (ok: bool, offset: nat)
    requires start <= |data|
    ensures Stops(Index(data[start..]), data, ok, offset)
  {
    var _, bytesRead := ReadULEB128(data[start..]);
    NumberAt(data, start);
    return bytesRead != 0, start + bytesRead;
  }

  method ReadName(data: Data, start: nat) returns (ok: bool, name: Data, offset: nat)
    requires start <= |data|
    ensures ok <==> Name(data[start..]).Some?
    ensures ok ==> offset <= |data| && Name(data[start..]) == Some((name, data[offset..]))
  {
    var length, bytesRead := ReadULEB128(data[start..]);
    NumberAt(data, start);
    if bytesRead == 0 || start + bytesRead + length > |data| {
      return false, [], start;
    }
    offset := start + bytesRead;
    name := data[offset..offset + length];
    var rest := data[offset..];
    assert rest[..length] == name && rest[length..] == data[offset + length..];
    return true, name, offset + length;
  }

  method AuditValueTypes(data: Data, start: nat) returns (ok: bool, offset: nat)
    requires start <= |data|
    ensures Stops(ValueTypes(data[start..]), data, ok, offset)
  {
    var count, bytesRead := ReadULEB128(data[start..]);
    NumberAt(data, start);
    if bytesRead == 0 {
      return false, start;
    }
    offset := start + bytesRead;
    ghost var rest := data[offset..];
    for j := 0 to count
      invariant offset == start + bytesRead + j <= |data|
      invariant forall k :: 0 <= k < j ==> !IsFloat(rest[k])
    {
      if offset >= |data| {
        return false, offset;
      }
      if data[offset] == 0x7D || data[offset] == 0x7C {
        assert IsFloat(rest[j]);
        return false, offset;
      }
      offset := offset + 1;
    }
    assert rest[count..] == data[offset..];
    ok := true;
  }

  method AuditFunctionType(data: Data, start: nat) returns (ok: bool, offset: nat)
    requires start <= |data|
    ensures Stops(FunctionType(data[start..]), data, ok, offset)
  {
    hide ValueTypes;
    if start >= |data| || data[start] != 0x60 {
      return false, start;
    }
    assert data[start..][1..] == data[start + 1..];
    ok, offset := AuditValueTypes(data, start + 1);
    if ok {
      ok, offset := AuditValueTypes(data, offset);
    }
  }

  method AuditTypeSection(data: Data) returns (ok: bool)
    ensures ok <==> VectorOk(data, U32, FunctionType)
  {
    hide FunctionType, Repeat;
    var count, bytesRead := ReadULEB128(data);
    NumberAt(data, 0);
    assert data[0..] == data;
    if bytesRead == 0 {
      return false;
    }
    var offset := bytesRead;
    for i := 0 to count
      invariant 0 <= offset <= |data|
      invariant Repeat(count, data[bytesRead..], FunctionType) == Repeat(count - i, data[offset..], FunctionType)
    {
      RepeatUnfold(count - i, data[offset..], FunctionType);
      ok, offset := AuditFunctionType(data, offset);
      if !ok {
        return;
      }
    }
    RepeatUnfold(0, data[offset..], FunctionType);
    ok := true;
  }

  method AuditLimits(data: Data, start: nat, most: nat) returns (ok: bool, offset: nat)
    requires start <= |data|
    ensures Stops(Limits(data[start..], most), data, ok, offset)
  {
    if start >= |data| {
      return false, start;
    }
    var hasMax := data[start];
    assert data[start..][1..] == data[start + 1..];
    var min, bytesRead := ReadULEB128(data[start + 1..]);
    NumberAt(data, start + 1);
    if bytesRead == 0 {
      return false, start;
    }
    offset := start + 1 + bytesRead;
    if min > most {
      return false, offset;
    }
    if hasMax == 1 {
      var max, maxRead := ReadULEB128(data[offset..]);
      NumberAt(data, offset);
      if maxRead == 0 || max > most {
        return false, offset;
      }
      offset := offset + maxRead;
    }
    ok := true;
  }

  method AuditImport(data: Data, start: nat) returns (ok: bool, offset: nat)
    requires start <= |data|
    ensures Stops(Import(data[start..]), data, ok, offset)
  {
    hide Name, Limits, Index;
    var namespace, field;
    ok, namespace, offset := ReadName(data, start);
    if !ok {
      return;
    }
    ok, field, offset := ReadName(data, offset);
    if !ok {
      return;
    }
    if offset >= |data| || namespace != ACCUMEN {
      return false, offset;
    }
    var kind := data[offset];
    assert data[offset..][1..] == data[offset + 1..];
    offset := offset + 1;
    ok, offset := SkipDescriptor(kind, data, offset);
  }

  method SkipDescriptor(kind: byte, data: Data, start: nat) returns (ok: bool, offset: nat)
    requires start <= |data|
    ensures Stops(ImportDescriptor(kind, data[start..]), data, ok, offset)
  {
    hide Limits, Index;
    match kind
    case 0 =>
      ok, offset := SkipNumber(data, start);
    case 1 =>
      if start + 1 >= |data| {
        return false, start;
      }
      assert data[start..][1..] == data[start + 1..];
      ok, offset := AuditLimits(data, start + 1, U32);
    case 2 =>
      ok, offset := AuditLimits(data, start, U32);
    case 3 =>
      if start + 2 > |data| {
        return false, start;
      }
      assert data[start..][2..] == data[start + 2..];
      return true, start + 2;
    case _ =>
      return true, start;
  }

  method AuditImportSection(data: Data) returns (ok: bool)
    ensures ok <==> VectorOk(data, MAX_IMPORTS, Import)
  {
    hide Import, Repeat;
    var count, bytesRead := ReadULEB128(data);
    NumberAt(data, 0);
    assert data[0..] == data;
    if bytesRead == 0 || count > MAX_IMPORTS {
      return false;
    }
    var offset := bytesRead;
    for i := 0 to count
      invariant 0 <= offset <= |data|
      invariant Repeat(count, data[bytesRead..], Import) == Repeat(count - i, data[offset..], Import)
    {
      RepeatUnfold(count - i, data[offset..], Import);
      ok, offset := AuditImport(data, offset);
      if !ok {
        return;
      }
    }
    RepeatUnfold(0, data[offset..], Import);
    ok := true;
  }

  method AuditTable(data: Data, start: nat) returns (ok: bool, offset: nat)
    requires start <= |data|
    ensures Stops(Table(data[start..]), data, ok, offset)
  {
    hide Limits;
    if start >= |data| {
      return false, start;
    }
    assert data[start..][1..] == data[start + 1..];
    ok, offset := AuditLimits(data, start + 1, MAX_TABLE_SIZE);
  }

  method AuditTableSection(data: Data) returns (ok: bool)
    ensures ok <==> VectorOk(data, U32, Table)
  {
    hide Table, Repeat;
    var count, bytesRead := ReadULEB128(data);
    NumberAt(data, 0);
    assert data[0..] == data;
    if bytesRead == 0 {
      return false;
    }
    var offset := bytesRead;
    for i := 0 to count
      invariant 0 <= offset <= |data|
      invariant Repeat(count, data[bytesRead..], Table) == Repeat(count - i, data[offset..], Table)
    {
      RepeatUnfold(count - i, data[offset..], Table);
      ok, offset := AuditTable(data, offset);
      if !ok {
        return;
      }
    }
    RepeatUnfold(0, data[offset..], Table);
    ok := true;
  }

  method AuditLocal(data: Data, start: nat) returns (ok: bool, offset: nat)
    requires start <= |data|
    ensures Stops(Local(data[start..]), data, ok, offset)
  {
    var _, bytesRead := ReadULEB128(data[start..]);
    NumberAt(data, start);
    if bytesRead == 0 || start + bytesRead >= |data| {
      return false, start;
    }
    offset := start + bytesRead;
    if data[offset] == 0x7D || data[offset] == 0x7C {
      return false, offset;
    }
    assert data[offset..][1..] == data[offset + 1..];
    return true, offset + 1;
  }

  method AuditFunctionCode(body: Data) returns (ok: bool)
    ensures ok <==> FunctionOk(body)
  {
    hide Local, Repeat;
    var locals, bytesRead := ReadULEB128(body);
    NumberAt(body, 0);
    assert body[0..] == body;
    if bytesRead == 0 {
      return false;
    }
    var offset := bytesRead;
    for i := 0 to locals
      invariant 0 <= offset <= |body|
      invariant Repeat(locals, body[bytesRead..], Local) == Repeat(locals - i, body[offset..], Local)
    {
      RepeatUnfold(locals - i, body[offset..], Local);
      ok, offset := AuditLocal(body, offset);
      if !ok {
        return;
      }
    }
    RepeatUnfold(0, body[offset..], Local);
    ok := ScanOpcodes(body[offset..]);
  }

  method ScanOpcodes(code: Data) returns (ok: bool)
    ensures ok <==> ScanOk(code)
  {
    for k := 0 to |code|
      invariant forall j :: 0 <= j < k ==>
        !ForbiddenOpcode(code[j]) && !(code[j] == 0xFC && j + 1 < |code| && code[j + 1] <= 11)
    {
      if ForbiddenOpcode(code[k]) {
        return false;
      }
      if code[k] == 0xFC && k + 1 < |code| && code[k + 1] <= 11 {
        return false;
      }
    }
    ok := true;
  }

  method AuditFunction(data: Data, start: nat) returns (ok: bool, offset: nat)
    requires start <= |data|
    ensures Stops(Function(data[start..]), data, ok, offset)
  {
    hide Name, FunctionOk;
    var body;
    ok, body, offset := ReadName(data, start);
    if ok {
      ok := AuditFunctionCode(body);
    }
  }

  method AuditCodeSection(data: Data) returns (ok: bool)
    ensures ok <==> VectorOk(data, U32, Function)
  {
    hide Function, Repeat;
    var count, bytesRead := ReadULEB128(data);
    NumberAt(data, 0);
    assert data[0..] == data;
    if bytesRead == 0 {
      return false;
    }
    var offset := bytesRead;
    for i := 0 to count
      invariant 0 <= offset <= |data|
      invariant Repeat(count, data[bytesRead..], Function) == Repeat(count - i, data[offset..], Function)
    {
      RepeatUnfold(count - i, data[offset..], Function);
      ok, offset := AuditFunction(data, offset);
      if !ok {
        return;
      }
    }
    RepeatUnfold(0, data[offset..], Function);
    ok := true;
  }

  method AuditCustomSection(data: Data, forbidden: seq<Data>) returns (ok: bool)
    ensures ok <==> CustomOk(data, forbidden)
  {
    hide Contains;
    if |data| == 0 {
      return true;
    }
    assert data[0..] == data;
    var name, offset;
    ok, name, offset := ReadName(data, 0);
    if !ok {
      return;
    }
    for k := 0 to |forbidden|
      invariant forall j :: 0 <= j < k ==> !Contains(name, forbidden[j])
    {
      if Contains(name, forbidden[k]) {
        return false;
      }
    }
    ok := true;
  }

  /** The report the auditors share and update. */
  class AuditReport {
    var ok: bool
    var memPages: nat
    var exports: seq<Data>

    ghost function Value(): Report
      reads this
    {
      Report(ok, memPages, exports)
    }

    constructor ()
      ensures Value() == Report(true, 0, [])
    {
      ok := true;
      memPages := 0;
      exports := [];
    }

    method AuditMemorySection(data: Data) returns (sectionOk: bool)
      modifies `memPages
      ensures sectionOk <==> MemoryOk(data)
      ensures memPages == MemoryPages(data, old(memPages))
    {
      hide Number, Read;
      var count, bytesRead := ReadULEB128(data);
      NumberAt(data, 0);
      assert data[0..] == data;
      if bytesRead == 0 {
        return false;
      }
      var offset := bytesRead;
      if count > 1 {
        return false;
      }
      if count == 1 {
        if offset >= |data| {
          return false;
        }
        var hasMax := data[offset];
        assert data[offset..][1..] == data[offset + 1..];
        offset := offset + 1;
        var minPages, minRead := ReadULEB128(data[offset..]);
        NumberAt(data, offset);
        if minRead == 0 {
          return false;
        }
        offset := offset + minRead;
        if minPages > MAX_MEMORY_PAGES {
          return false;
        }
        memPages := minPages;
        if hasMax == 1 {
          var maxPages, maxRead := ReadULEB128(data[offset..]);
          NumberAt(data, offset);
          if maxRead == 0 {
            return false;
          }
          if maxPages > MAX_MEMORY_PAGES {
            return false;
          }
          memPages := maxPages;
        }
      }
      sectionOk := true;
    }

    method AuditExportSection(data: Data) returns (sectionOk: bool)
      modifies `exports
      ensures sectionOk <==> VectorOk(data, MAX_EXPORTS, Export)
      ensures exports == old(exports) + ExportedNames(data)
    {
      hide Name, ExportTail, Repeat, ExportNames;
      var count, bytesRead := ReadULEB128(data);
      NumberAt(data, 0);
      assert data[0..] == data;
      if bytesRead == 0 || count > MAX_EXPORTS {
        return false;
      }
      var offset := bytesRead;
      for i := 0 to count
        invariant 0 <= offset <= |data|
        invariant Repeat(count, data[bytesRead..], Export) == Repeat(count - i, data[offset..], Export)
        invariant exports + ExportNames(count - i, data[offset..]) ==
                  old(exports) + ExportNames(count, data[bytesRead..])
      {
        RepeatUnfold(count - i, data[offset..], Export);
        NamesUnfold(count - i, data[offset..]);
        var ok, name, next := ReadName(data, offset);
        if !ok {
          return false;
        }
        exports := exports + [name];
        sectionOk, offset := AuditExportTail(data, next);
        if !sectionOk {
          return;
        }
      }
      RepeatUnfold(0, data[offset..], Export);
      NamesUnfold(0, data[offset..]);
      sectionOk := true;
    }

    method AuditSection(kind: byte, data: Data, forbidden: seq<Data>) returns (sectionOk: bool)
      modifies `memPages, `exports
      ensures Report(ok && sectionOk, memPages, exports) == AfterSection(kind, data, forbidden, old(Value()))
      ensures sectionOk <==> SectionOk(kind, data, forbidden)
    {
      hide CustomOk, VectorOk, MemoryOk, MemoryPages, ExportedNames;
      match kind
      case 1 => sectionOk := AuditTypeSection(data);
      case 2 => sectionOk := AuditImportSection(data);
      case 5 => sectionOk := AuditMemorySection(data);
      case 4 => sectionOk := AuditTableSection(data);
      case 7 => sectionOk := AuditExportSection(data);
      case 10 => sectionOk := AuditCodeSection(data);
      case 0 => sectionOk := AuditCustomSection(data, forbidden);
      case _ => sectionOk := true;
    }
  }

  method AuditExportTail(data: Data, start: nat) returns (ok: bool, offset: nat)
    requires start <= |data|
    ensures Stops(ExportTail(data[start..]), data, ok, offset)
  {
    if start >= |data| {
      return false, start;
    }
    var kind := data[start];
    assert data[start..][1..] == data[start + 1..];
    ok, offset := SkipNumber(data, start + 1);
    if kind > 3 {
      ok := false;
    }
  }

  lemma NamesUnfold(count: nat, data: Data)
    ensures ExportNames(0, data) == []
    ensures count > 0 && Name(data) == None ==> ExportNames(count, data) == []
    ensures count > 0 && Name(data).Some? ==>
              var (name, rest) := Name(data).value;
              ExportNames(count, data) ==
              [name] + match ExportTail(rest) case None => [] case Some(rest') => ExportNames(count - 1, rest')
  {
  }

  method AuditWASMModule(wasm: Data, forbidden: seq<Data>) returns (report: AuditReport)
    ensures fresh(report) && report.Value() == Audit(wasm, forbidden)
  {
    hide AfterSection, Sections, Number, Read, LittleEndian32;
    report := new AuditReport();
    if |wasm| < 8 || LittleEndian32(wasm[..4]) != MAGIC || LittleEndian32(wasm[4..8]) != VERSION {
      report.ok := false;
      return;
    }
    var offset := 8;
    while offset < |wasm|
      invariant 8 <= offset <= |wasm|
      invariant Sections(wasm[offset..], forbidden, report.Value()) ==
                Sections(wasm[8..], forbidden, Report(true, 0, []))
      decreases |wasm| - offset
    {
      SectionsUnfold(wasm[offset..], forbidden, report.Value());
      if offset + 1 >= |wasm| {
        break;
      }
      var kind := wasm[offset];
      assert wasm[offset..][1..] == wasm[offset + 1..];
      offset := offset + 1;
      var size, bytesRead := ReadULEB128(wasm[offset..]);
      NumberAt(wasm, offset);
      if bytesRead == 0 {
        report.ok := false;
        return;
      }
      offset := offset + bytesRead;
      if offset + size > |wasm| {
        report.ok := false;
        return;
      }
      var data := wasm[offset..offset + size];
      assert wasm[offset..][..size] == data && wasm[offset..][size..] == wasm[offset + size..];
      var sectionOk := report.AuditSection(kind, data, forbidden);
      if !sectionOk {
        report.ok := false;
      }
      offset := offset + size;
    }
    SectionsUnfold(wasm[offset..], forbidden, report.Value());
  }

  lemma SectionsUnfold(data: Data, forbidden: seq<Data>, r: Report)
    ensures |data| < 2 ==> Sections(data, forbidden, r) == r
    ensures |data| >= 2 ==>
              Sections(data, forbidden, r) ==
              match Number(data[1..])
              case None => r.(ok := false)
              case Some((size, rest)) =>
                if size > |rest| then r.(ok := false)
                else Sections(rest[size..], forbidden, AfterSection(data[0], rest[..size], forbidden, r))
  {
  }
}
