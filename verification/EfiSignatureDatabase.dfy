/** The parser of a firmware signature database: a concatenation of EFI_SIGNATURE_LIST structures
    (UEFI Specification 2.10, section 32.4.1). What it returns is characterised by the one way in
    which the bytes decompose into lists. */
module EfiSignatureDatabase {
  import opened Wrappers
  import opened MachineIntegers

  const LIST_HEADER_BYTES := 28
  const OWNER_BYTES := 16

  /** a5c059a1-94e4-4aa7-87b5-ab155c2bf072, in firmware byte order. */
  const EFI_CERT_X509_GUID_BYTES: seq<byte> :=
    [0xa1, 0x59, 0xc0, 0xa5, 0xe4, 0x94, 0xa7, 0x4a, 0x87, 0xb5, 0xab, 0x15, 0x5c, 0x2b, 0xf0, 0x72]

  // ---------------------------------------------------------------------------------------------
  // Little-endian 32-bit fields
  // ---------------------------------------------------------------------------------------------

  function Le32(n: u32): (bytes: seq<byte>)
    ensures |bytes| == 4
  {
    var q1 := n / 256;
    var q2 := q1 / 256;
    [n % 256, q1 % 256, q2 % 256, q2 / 256]
  }

  function ReadU32(data: seq<byte>, offset: nat): u32
    requires offset + 4 <= |data|
  {
    (data[offset] as int) + 256 * (data[offset + 1] as int)
    + 65536 * (data[offset + 2] as int) + 16777216 * (data[offset + 3] as int)
  }

  lemma ReadOfLe32(n: u32)
    ensures ReadU32(Le32(n), 0) == n
  {
    var q1 := n / 256;
    var q2 := q1 / 256;
    assert n == 256 * q1 + n % 256 && q1 == 256 * q2 + q1 % 256 && q2 == 256 * (q2 / 256) + q2 % 256;
  }

  /** The least significant byte first. */
  lemma Le32At(n: u32)
    ensures Le32(n)[0] == n % 256 && Le32(n)[1] == n / 256 % 256
    ensures Le32(n)[2] == n / 65_536 % 256 && Le32(n)[3] == n / 16_777_216
  {
    DivideTwice(n, 256, 256);
    DivideTwice(n, 65_536, 256);
  }

  lemma DivideBy256(high: nat, low: byte)
    ensures (256 * high + low) / 256 == high && (256 * high + low) % 256 == low
  {
  }

  lemma Le32OfBytes(a: byte, b: byte, c: byte, d: byte)
    ensures Le32((a as int) + 256 * (b as int) + 65536 * (c as int) + 16777216 * (d as int)) == [a, b, c, d]
  {
    var q2: nat := 256 * d + c;
    var q1: nat := 256 * q2 + b;
    DivideBy256(q1, a);
    DivideBy256(q2, b);
    DivideBy256(d, c);
  }

  lemma Le32OfRead(data: seq<byte>, offset: nat)
    requires offset + 4 <= |data|
    ensures Le32(ReadU32(data, offset)) == data[offset..offset + 4]
  {
    Le32OfBytes(data[offset], data[offset + 1], data[offset + 2], data[offset + 3]);
  }

  // ---------------------------------------------------------------------------------------------
  // Signature lists
  // ---------------------------------------------------------------------------------------------

  datatype SignatureList = SignatureList(
    signatureType: seq<byte>,
    signatureSize: int,
    header: seq<byte>,
    body: seq<byte>)

  function ListSize(l: SignatureList): int {
    LIST_HEADER_BYTES + |l.header| + |l.body|
  }

  /** A list whose size fields are consistent and fit their 32-bit fields. */
  predicate Framed(l: SignatureList) {
    && |l.signatureType| == 16
    && 16 <= l.signatureSize <= U32_MAX
    && ListSize(l) <= U32_MAX
  }

  function Fields(l: SignatureList): (bytes: seq<byte>)
    requires Framed(l)
    ensures |bytes| == LIST_HEADER_BYTES
  {
    l.signatureType + (Le32(ListSize(l)) + (Le32(|l.header|) + Le32(l.signatureSize)))
  }

  function ListBytes(l: SignatureList): (bytes: seq<byte>)
    requires Framed(l)
    ensures |bytes| == ListSize(l)
  {
    Fields(l) + (l.header + l.body)
  }

  /** Where the bytes of an identifier's text are stored: the first three groups least significant byte first, the
      others as they are written. */
  const GUID_PLACES := [3, 2, 1, 0, 5, 4, 7, 6, 8, 9, 10, 11, 12, 13, 14, 15]

  /** The type identifier is a5c059a1-94e4-4aa7-87b5-ab155c2bf072. */
  lemma X509GuidIs(k: nat)
    requires k < 16
    ensures EFI_CERT_X509_GUID_BYTES[GUID_PLACES[k]] ==
      [0xa5, 0xc0, 0x59, 0xa1, 0x94, 0xe4, 0x4a, 0xa7, 0x87, 0xb5, 0xab, 0x15, 0x5c, 0x2b, 0xf0, 0x72][k]
  {
  }

  /** The bytes of a list by their places: 16 of type, then the sizes of the whole list, of the header and of one
      entry, in four bytes each, then header and body. */
  lemma ListBytesAt(l: SignatureList)
    requires Framed(l)
    ensures var b, size := ListBytes(l), 28 + |l.header| + |l.body|;
      && |b| == size && b[..16] == l.signatureType
      && b[16..20] == [size % 256, size / 256 % 256, size / 65_536 % 256, size / 16_777_216]
      && b[20..24] == [|l.header| % 256, |l.header| / 256 % 256, |l.header| / 65_536 % 256, |l.header| / 16_777_216]
      && b[24..28] == [l.signatureSize % 256, l.signatureSize / 256 % 256, l.signatureSize / 65_536 % 256,
                       l.signatureSize / 16_777_216]
      && b[28..28 + |l.header|] == l.header && b[28 + |l.header|..] == l.body
  {
    Le32At(ListSize(l));
    Le32At(|l.header|);
    Le32At(l.signatureSize);
    var b := ListBytes(l);
    assert b[16..20] == Le32(ListSize(l)) && b[20..24] == Le32(|l.header|) && b[24..28] == Le32(l.signatureSize);
  }

  predicate AllFramed(lists: seq<SignatureList>) {
    forall i :: 0 <= i < |lists| ==> Framed(lists[i])
  }

  function AllBytes(lists: seq<SignatureList>): seq<byte>
    requires AllFramed(lists)
  {
    if lists == [] then [] else ListBytes(lists[0]) + AllBytes(lists[1..])
  }

  predicate IsX509(l: SignatureList) {
    l.signatureType == EFI_CERT_X509_GUID_BYTES
  }

  /** The payloads of the whole entries of `size` bytes in `body`, each behind its owner. */
  function Payloads(body: seq<byte>, size: int): seq<seq<byte>>
    requires size >= 16
    decreases |body|
  {
    if |body| < size then [] else [body[16..size]] + Payloads(body[size..], size)
  }

  /** The entries fill the body exactly. */
  predicate Tiled(body: seq<byte>, size: int)
    requires size >= 16
    decreases |body|
  {
    if |body| < size then body == [] else Tiled(body[size..], size)
  }

  function Certificates(l: SignatureList): seq<seq<byte>>
    requires Framed(l)
  {
    if IsX509(l) then Payloads(l.body, l.signatureSize) else []
  }

  function AllCertificates(lists: seq<SignatureList>): seq<seq<byte>>
    requires AllFramed(lists)
  {
    if lists == [] then [] else Certificates(lists[0]) + AllCertificates(lists[1..])
  }

  /** An X.509 list that is nothing but whole entries. */
  predicate Exact(l: SignatureList)
    requires Framed(l)
  {
    IsX509(l) && Tiled(l.body, l.signatureSize)
  }

  predicate AllExact(lists: seq<SignatureList>)
    requires AllFramed(lists)
  {
    forall i :: 0 <= i < |lists| ==> Exact(lists[i])
  }

  /** `data` begins with a whole framed list. */
  ghost predicate BeginsWithList(data: seq<byte>) {
    exists l :: Framed(l) && ListBytes(l) <= data
  }

  /** `data` is the bytes of `lists` and a rest that begins with no further list. */
  ghost predicate Decomposes(data: seq<byte>, lists: seq<SignatureList>, rest: seq<byte>) {
    AllFramed(lists) && data == AllBytes(lists) + rest && !BeginsWithList(rest)
  }

  // ---------------------------------------------------------------------------------------------
  // Entries
  // ---------------------------------------------------------------------------------------------

  function Joined(entries: seq<seq<byte>>): seq<byte> {
    if entries == [] then [] else entries[0] + Joined(entries[1..])
  }

  predicate EachOfSize(entries: seq<seq<byte>>, size: int) {
    forall i :: 0 <= i < |entries| ==> |entries[i]| == size
  }

  /** A body made of whole entries is tiled, and its payloads are theirs, in order. */
  lemma {:induction false} EntriesTile(entries: seq<seq<byte>>, size: int)
    requires size >= 16 && EachOfSize(entries, size)
    ensures Tiled(Joined(entries), size)
    ensures |Payloads(Joined(entries), size)| == |entries|
    ensures forall i :: 0 <= i < |entries| ==> Payloads(Joined(entries), size)[i] == entries[i][16..]
  {
    if entries != [] {
      EntriesTile(entries[1..], size);
      var body := Joined(entries);
      assert body[size..] == Joined(entries[1..]);
      assert body[16..size] == entries[0][16..];
    }
  }

  /** A tiled body is made of whole entries. */
  lemma {:induction false} TiledHasEntries(body: seq<byte>, size: int) returns (entries: seq<seq<byte>>)
    requires size >= 16 && Tiled(body, size)
    ensures EachOfSize(entries, size) && Joined(entries) == body
    decreases |body|
  {
    if |body| < size {
      entries := [];
    } else {
      var tail := TiledHasEntries(body[size..], size);
      entries := [body[..size]] + tail;
      assert entries[1..] == tail;
    }
  }

  // ---------------------------------------------------------------------------------------------
  // Reading a list back
  // ---------------------------------------------------------------------------------------------

  /** The fields at the start of `data` are those of any list that `data` begins with. */
  lemma FieldsAreRead(data: seq<byte>, l: SignatureList)
    requires Framed(l) && ListBytes(l) <= data
    ensures |data| >= LIST_HEADER_BYTES
    ensures data[..16] == l.signatureType
    ensures ReadU32(data, 16) == ListSize(l)
    ensures ReadU32(data, 20) == |l.header|
    ensures ReadU32(data, 24) == l.signatureSize
  {
    var fields := Fields(l);
    assert data[..LIST_HEADER_BYTES] == ListBytes(l)[..LIST_HEADER_BYTES] == fields;
    assert data[..16] == fields[..16] == l.signatureType;
    assert data[16..20] == fields[16..20] == Le32(ListSize(l));
    assert data[20..24] == fields[20..24] == Le32(|l.header|);
    assert data[24..28] == fields[24..28] == Le32(l.signatureSize);
    ReadOfSlice(data, 16, ListSize(l));
    ReadOfSlice(data, 20, |l.header|);
    ReadOfSlice(data, 24, l.signatureSize);
  }

  lemma ReadOfSlice(data: seq<byte>, offset: nat, n: u32)
    requires offset + 4 <= |data| && data[offset..offset + 4] == Le32(n)
    ensures ReadU32(data, offset) == n
  {
    ReadOfLe32(n);
    var bytes := data[offset..offset + 4];
    assert bytes[0] == data[offset] && bytes[1] == data[offset + 1];
    assert bytes[2] == data[offset + 2] && bytes[3] == data[offset + 3];
  }

  /** The list that consistent fields at the start of `data` describe. */
  function ListAt(data: seq<byte>): (l: SignatureList)
    requires |data| >= LIST_HEADER_BYTES
    requires LIST_HEADER_BYTES + ReadU32(data, 20) <= ReadU32(data, 16) <= |data|
  {
    var bodyStart := LIST_HEADER_BYTES + ReadU32(data, 20);
    SignatureList(data[..16], ReadU32(data, 24), data[LIST_HEADER_BYTES..bodyStart], data[bodyStart..ReadU32(data, 16)])
  }

  lemma ListAtIsPrefix(data: seq<byte>)
    requires |data| >= LIST_HEADER_BYTES
    requires LIST_HEADER_BYTES + ReadU32(data, 20) <= ReadU32(data, 16) <= |data|
    requires ReadU32(data, 24) >= OWNER_BYTES
    ensures Framed(ListAt(data)) && ListBytes(ListAt(data)) == data[..ReadU32(data, 16)]
  {
    var l := ListAt(data);
    Le32OfRead(data, 16);
    Le32OfRead(data, 20);
    Le32OfRead(data, 24);
    assert ListSize(l) == ReadU32(data, 16);
    assert Fields(l) == data[..LIST_HEADER_BYTES];
    assert l.header + l.body == data[LIST_HEADER_BYTES..ReadU32(data, 16)];
  }

  /** Two lists that the same bytes begin with are one. */
  lemma SameList(data: seq<byte>, a: SignatureList, b: SignatureList)
    requires Framed(a) && Framed(b) && ListBytes(a) <= data && ListBytes(b) <= data
    ensures a == b
  {
    FieldsAreRead(data, a);
    FieldsAreRead(data, b);
    assert ListBytes(a) == data[..ListSize(a)] == ListBytes(b);
    var bodyA, bodyB := ListBytes(a)[LIST_HEADER_BYTES..], ListBytes(b)[LIST_HEADER_BYTES..];
    assert bodyA == a.header + a.body && bodyB == b.header + b.body;
    assert a.header == bodyA[..|a.header|] && b.header == bodyB[..|b.header|];
    assert a.body == bodyA[|a.header|..] && b.body == bodyB[|b.header|..];
  }

  /** Bytes decompose into lists in at most one way. */
  lemma {:induction false} DecompositionIsUnique(
    data: seq<byte>, lists: seq<SignatureList>, rest: seq<byte>, lists': seq<SignatureList>, rest': seq<byte>)
    requires Decomposes(data, lists, rest) && Decomposes(data, lists', rest')
    ensures lists == lists' && rest == rest'
    decreases |lists|
  {
    if lists == [] {
      assert data == rest;
      if lists' != [] { HeadIsPrefix(lists', rest'); }
      assert lists' == [] && data == rest';
    } else if lists' == [] {
      assert data == rest';
      HeadIsPrefix(lists, rest);
      assert false;
    } else {
      var first := lists[0];
      HeadIsPrefix(lists, rest);
      HeadIsPrefix(lists', rest');
      SameList(data, first, lists'[0]);
      DecompositionIsUnique(data[ListSize(first)..], lists[1..], rest, lists'[1..], rest');
      assert lists == [first] + lists[1..] && lists' == [first] + lists'[1..];
    }
  }

  lemma HeadIsPrefix(lists: seq<SignatureList>, rest: seq<byte>)
    requires AllFramed(lists) && lists != []
    ensures ListBytes(lists[0]) <= AllBytes(lists) + rest
    ensures (AllBytes(lists) + rest)[ListSize(lists[0])..] == AllBytes(lists[1..]) + rest
  {
    var head, tail := ListBytes(lists[0]), AllBytes(lists[1..]);
    assert (head + tail) + rest == head + (tail + rest);
    assert (head + (tail + rest))[..|head|] == head;
    assert (head + (tail + rest))[|head|..] == tail + rest;
  }

  lemma {:induction false} AppendBytes(lists: seq<SignatureList>, l: SignatureList)
    requires AllFramed(lists) && Framed(l)
    ensures AllBytes(lists + [l]) == AllBytes(lists) + ListBytes(l)
  {
    var longer := lists + [l];
    if lists == [] {
      assert longer[1..] == [] && ListBytes(l) + [] == ListBytes(l);
    } else {
      var tail := lists[1..];
      AppendBytes(tail, l);
      assert longer[1..] == tail + [l] && longer[0] == lists[0];
      assert ListBytes(lists[0]) + (AllBytes(tail) + ListBytes(l))
          == (ListBytes(lists[0]) + AllBytes(tail)) + ListBytes(l);
    }
  }

  lemma {:induction false} AppendCertificates(lists: seq<SignatureList>, l: SignatureList)
    requires AllFramed(lists) && Framed(l)
    ensures AllCertificates(lists + [l]) == AllCertificates(lists) + Certificates(l)
  {
    var longer := lists + [l];
    if lists == [] {
      assert longer[1..] == [] && Certificates(l) + [] == Certificates(l);
    } else {
      var tail := lists[1..];
      AppendCertificates(tail, l);
      assert longer[1..] == tail + [l] && longer[0] == lists[0];
      assert Certificates(lists[0]) + (AllCertificates(tail) + Certificates(l))
          == (Certificates(lists[0]) + AllCertificates(tail)) + Certificates(l);
    }
  }

  lemma AppendExact(lists: seq<SignatureList>, l: SignatureList)
    requires AllFramed(lists) && Framed(l)
    ensures AllExact(lists + [l]) <==> AllExact(lists) && Exact(l)
  {
    var longer := lists + [l];
    if AllExact(longer) {
      assert longer[|lists|] == l;
      forall i | 0 <= i < |lists| ensures Exact(lists[i]) { assert longer[i] == lists[i]; }
    }
  }

  // ---------------------------------------------------------------------------------------------
  // The parser
  // ---------------------------------------------------------------------------------------------

  lemma SliceOfSlice(data: seq<byte>, from: nat, to: nat, i: nat, j: nat)
    requires from <= to <= |data| && i <= j <= to - from
    ensures data[from..to][i..j] == data[from + i..from + j]
  {
    var inner := data[from..to];
    forall k | 0 <= k < j - i ensures inner[i..j][k] == data[from + i..from + j][k] {
      assert inner[i..j][k] == inner[i + k] == data[from + (i + k)];
    }
  }

  /** The fields at the start of `data` describe a list that lies within `data`. */
  predicate ConsistentFields(data: seq<byte>) {
    && LIST_HEADER_BYTES <= |data|
    && LIST_HEADER_BYTES + ReadU32(data, 20) <= ReadU32(data, 16) <= |data|
    && OWNER_BYTES <= ReadU32(data, 24)
  }

  lemma ConsistentFieldsBeginList(data: seq<byte>)
    ensures ConsistentFields(data) <==> BeginsWithList(data)
  {
    if ConsistentFields(data) {
      ListAtIsPrefix(data);
      assert ListBytes(ListAt(data)) <= data;
    }
    if BeginsWithList(data) {
      var l :| Framed(l) && ListBytes(l) <= data;
      FieldsAreRead(data, l);
    }
  }

  lemma ReadBehind(data: seq<byte>, offset: nat, field: nat)
    requires offset + field + 4 <= |data|
    ensures ReadU32(data[offset..], field) == ReadU32(data, offset + field)
  {
  }

  /** Collect the payloads of the whole entries between `entry` and `listEnd`. */
  method ReadEntries(data: seq<byte>, entry: nat, listEnd: nat, signatureSize: int)
    returns (certificates: seq<seq<byte>>, exact: bool)
    requires entry <= listEnd <= |data| && signatureSize >= OWNER_BYTES
    ensures certificates == Payloads(data[entry..listEnd], signatureSize)
    ensures exact == Tiled(data[entry..listEnd], signatureSize)
  {
    var next := entry;
    certificates := [];
    while next + signatureSize <= listEnd
      invariant entry <= next <= listEnd
      invariant certificates + Payloads(data[next..listEnd], signatureSize)
          == Payloads(data[entry..listEnd], signatureSize)
      invariant Tiled(data[next..listEnd], signatureSize) == Tiled(data[entry..listEnd], signatureSize)
    {
      var body := data[next..listEnd];
      assert body[signatureSize..] == data[next + signatureSize..listEnd];
      SliceOfSlice(data, next, listEnd, OWNER_BYTES, signatureSize);
      certificates := certificates + [data[next + OWNER_BYTES..next + signatureSize]];
      next := next + signatureSize;
    }
    exact := next == listEnd;
  }

  /** Read the fields of the list at `offset`: the end of the list, the start of its entries and the
      size of an entry. `None` when no whole list lies there. */
  method ReadFields(data: seq<byte>, offset: nat)
    returns (r: Option<(nat, nat, int)>, ghost l: SignatureList)
    requires offset + LIST_HEADER_BYTES <= |data|
    ensures r.Some? <==> BeginsWithList(data[offset..])
    ensures r.Some? ==>
      var (listEnd, entry, signatureSize) := r.value;
      && offset + LIST_HEADER_BYTES <= entry <= listEnd <= |data|
      && Framed(l) && ListBytes(l) == data[offset..listEnd]
      && l.signatureType == data[offset..offset + 16]
      && l.signatureSize == signatureSize
      && l.body == data[entry..listEnd]
  {
    ghost var here := data[offset..];
    l := SignatureList([], 0, [], []);
    ReadBehind(data, offset, 16);
    ReadBehind(data, offset, 20);
    ReadBehind(data, offset, 24);
    ConsistentFieldsBeginList(here);
    var listSize := ReadU32(data, offset + 16);
    var headerSize := ReadU32(data, offset + 20);
    var signatureSize := ReadU32(data, offset + 24);
    if listSize < LIST_HEADER_BYTES || signatureSize < OWNER_BYTES {
      return None, l;
    }
    var listEnd := offset + listSize;
    if listEnd > |data| {
      return None, l;
    }
    var entry := offset + LIST_HEADER_BYTES + headerSize;
    if entry > listEnd {
      return None, l;
    }
    ListAtIsPrefix(here);
    l := ListAt(here);
    SliceOfSlice(data, offset, |data|, 0, 16);
    SliceOfSlice(data, offset, |data|, 0, listSize);
    SliceOfSlice(data, offset, |data|, entry - offset, listSize);
    return Some((listEnd, entry, signatureSize)), l;
  }

  /** The answer for bytes that decompose into `lists` and `rest`. */
  predicate Reports(lists: seq<SignatureList>, rest: seq<byte>, certificates: seq<seq<byte>>, complete: bool)
    requires AllFramed(lists)
  {
    && certificates == AllCertificates(lists)
    && (complete <==> rest == [] && lists != [] && AllExact(lists))
  }

  /** Parse a database. The result is complete exactly when the bytes are a non-empty sequence of X.509
      lists tiled by their entries; the certificates are the payloads of the lists that could be read. */
  method ParseEfiDatabase(data: seq<byte>) returns (certificates: seq<seq<byte>>, complete: bool)
    ensures forall lists, rest :: Decomposes(data, lists, rest) ==> Reports(lists, rest, certificates, complete)
    ensures exists lists, rest :: Decomposes(data, lists, rest)
  {
    certificates := [];
    var offset := 0;
    var sawList := false;
    complete := data != [];
    ghost var lists: seq<SignatureList> := [];
    while offset + LIST_HEADER_BYTES <= |data|
      invariant 0 <= offset <= |data|
      invariant AllFramed(lists) && AllBytes(lists) == data[..offset]
      invariant certificates == AllCertificates(lists)
      invariant sawList == (lists != [])
      invariant complete == (data != [] && AllExact(lists))
      decreases |data| - offset
    {
      var fields, l := ReadFields(data, offset);
      if fields.None? {
        complete := false;
        break;
      }
      var (listEnd, entry, signatureSize) := fields.value;
      sawList := true;
      AppendList(data, lists, l, offset, listEnd);
      if data[offset..offset + 16] == EFI_CERT_X509_GUID_BYTES {
        var found, exact := ReadEntries(data, entry, listEnd, signatureSize);
        certificates := certificates + found;
        if !exact {
          complete := false;
        }
      } else {
        complete := false;
      }
      lists := lists + [l];
      offset := listEnd;
    }
    ghost var rest := data[offset..];
    TooShortForList(rest);
    if !sawList || offset != |data| {
      complete := false;
    }
    DecomposedAt(data, lists, offset);
    assert Reports(lists, rest, certificates, complete);
    EveryDecompositionReports(data, lists, rest, certificates, complete);
  }

  lemma AppendList(data: seq<byte>, lists: seq<SignatureList>, l: SignatureList, offset: nat, listEnd: nat)
    requires AllFramed(lists) && Framed(l) && offset <= listEnd <= |data|
    requires AllBytes(lists) == data[..offset] && ListBytes(l) == data[offset..listEnd]
    ensures AllFramed(lists + [l]) && AllBytes(lists + [l]) == data[..listEnd]
    ensures AllCertificates(lists + [l]) == AllCertificates(lists) + Certificates(l)
    ensures AllExact(lists + [l]) <==> AllExact(lists) && Exact(l)
  {
    AppendBytes(lists, l);
    AppendCertificates(lists, l);
    AppendExact(lists, l);
    assert data[..listEnd] == data[..offset] + data[offset..listEnd];
  }

  lemma DecomposedAt(data: seq<byte>, lists: seq<SignatureList>, offset: nat)
    requires offset <= |data| && AllFramed(lists) && AllBytes(lists) == data[..offset]
    requires !BeginsWithList(data[offset..])
    ensures Decomposes(data, lists, data[offset..])
  {
    assert data == data[..offset] + data[offset..];
  }

  lemma EveryDecompositionReports(data: seq<byte>, lists: seq<SignatureList>, rest: seq<byte>,
                                  certificates: seq<seq<byte>>, complete: bool)
    requires Decomposes(data, lists, rest) && Reports(lists, rest, certificates, complete)
    ensures forall lists', rest' :: Decomposes(data, lists', rest') ==> Reports(lists', rest', certificates, complete)
  {
    forall lists', rest' | Decomposes(data, lists', rest') ensures Reports(lists', rest', certificates, complete) {
      DecompositionIsUnique(data, lists, rest, lists', rest');
    }
  }

  lemma TooShortForList(data: seq<byte>)
    ensures |data| < LIST_HEADER_BYTES ==> !BeginsWithList(data)
  {
    ConsistentFieldsBeginList(data);
  }
}
