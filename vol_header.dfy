/** The header of a Vol volume file: a fixed record of seven 32-bit
    unsigned fields and six 32-bit floats, 52 bytes, kept in memory in
    network (big-endian) byte order so that it can be written to disk
    as-is. A field is modelled as the four bytes it occupies in memory; the
    host's byte order is a parameter and decides which number those bytes
    stand for. Float fields are kept as bytes too, with no float
    arithmetic. */
module VolFormat {
  import opened Wrappers

  /** The byte order of the host the code is compiled for. */
  datatype Endian = BigEndian | LittleEndian

  newtype Byte = x: int | 0 <= x < 256

  /** Bytes in one field. */
  const FIELD_BYTES: nat := 4

  /** One 32-bit field as it lies in memory. */
  type Word = w: seq<Byte> | |w| == FIELD_BYTES witness [0, 0, 0, 0]

  const UINT32_MODULUS: nat := 0x1_0000_0000

  /** Fields of each kind in the record. */
  const UINT32_FIELDS: nat := 7
  const FLOAT_FIELDS: nat := 6

  /** `sizeof(VolHeader)`. */
  const HEADER_BYTES: nat := 52

  /** The magic number every Vol header starts with. */
  const MAGIC: nat := 0x0b7e_7759

  /** The IEEE-754 single precision bit pattern of `1.f`. */
  const FLOAT_ONE_BITS: nat := 0x3f80_0000

  /** A word's bytes from least to most significant on this host. */
  function Significance(e: Endian, w: Word): Word
  {
    match e
    case LittleEndian => w
    case BigEndian => [w[3], w[2], w[1], w[0]]
  }

  /** The number four bytes stand for, least significant first. */
  function FromDigits(d: Word): (n: nat)
    ensures n < UINT32_MODULUS
  {
    d[0] as nat + 0x100 * (d[1] as nat + 0x100 * (d[2] as nat + 0x100 * d[3] as nat))
  }

  /** The four bytes of a number below 2^32, least significant first. */
  function Digits(n: nat): Word
    requires n < UINT32_MODULUS
  {
    var q1 := n / 0x100;
    var q2 := q1 / 0x100;
    [(n % 0x100) as Byte, (q1 % 0x100) as Byte, (q2 % 0x100) as Byte, (q2 / 0x100) as Byte]
  }

  /** Digits and the number they stand for determine each other. */
  lemma DigitsRoundTrip(n: nat, d: Word)
    requires n < UINT32_MODULUS
    ensures FromDigits(Digits(n)) == n
    ensures Digits(FromDigits(d)) == d
  {
    var v := FromDigits(d);
    var r1 := d[1] as nat + 0x100 * (d[2] as nat + 0x100 * d[3] as nat);
    var r2 := d[2] as nat + 0x100 * d[3] as nat;
    assert v / 0x100 == r1 && v % 0x100 == d[0] as nat;
    assert r1 / 0x100 == r2 && r1 % 0x100 == d[1] as nat;
    assert r2 / 0x100 == d[3] as nat && r2 % 0x100 == d[2] as nat;
  }

  /** The number a host reads from a word: least significant byte first on
      a little-endian host, most significant first on a big-endian one. */
  function Value(e: Endian, w: Word): (n: nat)
    ensures n < UINT32_MODULUS
  {
    FromDigits(Significance(e, w))
  }

  /** The word a host stores for a number below 2^32. */
  function Layout(e: Endian, n: nat): Word
    requires n < UINT32_MODULUS
  {
    Significance(e, Digits(n))
  }

  /** Storing a number and reading it back gives the number; reading a
      word and storing the number gives the word. */
  lemma LayoutRoundTrip(e: Endian, n: nat, w: Word)
    requires n < UINT32_MODULUS
    ensures Value(e, Layout(e, n)) == n
    ensures Layout(e, Value(e, w)) == w
  {
    DigitsRoundTrip(n, Significance(e, w));
    assert Significance(e, Significance(e, Digits(n))) == Digits(n);
    assert Significance(e, Significance(e, w)) == w;
  }

  /** `hton_uint32`: the identity on a big-endian host; on a little-endian
      host the bytes of the value are copied in reverse order into a fresh
      word. */
  function Hton32(e: Endian, value: Word): Word
  {
    match e
    case BigEndian => value
    case LittleEndian => [value[3], value[2], value[1], value[0]]
  }

  /** `ntoh_uint32`: the identity on a big-endian host, `hton_uint32` on a
      little-endian one. */
  function Ntoh32(e: Endian, value: Word): Word
  {
    match e
    case BigEndian => value
    case LittleEndian => Hton32(e, value)
  }

  /** Converting twice gives the word back, and `ntoh_uint32` undoes
      `hton_uint32` in both directions. */
  lemma Hton32Involution(e: Endian, w: Word)
    ensures Hton32(e, Hton32(e, w)) == w
    ensures Ntoh32(e, Hton32(e, w)) == w
    ensures Hton32(e, Ntoh32(e, w)) == w
  {
  }

  /** Whatever the host, a converted number lies in memory as its
      big-endian bytes: network order. */
  lemma Hton32IsNetworkOrder(e: Endian, n: nat)
    requires n < UINT32_MODULUS
    ensures Hton32(e, Layout(e, n)) == Layout(BigEndian, n)
  {
  }

  /** On a little-endian host the number the converted word stands for is
      the number with its bytes swapped. */
  lemma Hton32SwapsBytes(n: nat)
    requires n < UINT32_MODULUS
    ensures Value(LittleEndian, Hton32(LittleEndian, Layout(LittleEndian, n)))
         == n % 0x100 * 0x100_0000 + n / 0x100 % 0x100 * 0x1_0000 + n / 0x1_0000 % 0x100 * 0x100 + n / 0x100_0000
  {
  }

  /** The big-endian check of the source, and what the same value becomes
      on a little-endian host. */
  lemma Hton32Tests()
    ensures Value(BigEndian, Hton32(BigEndian, Layout(BigEndian, 0x0001_0203))) == 0x0001_0203
    ensures Value(LittleEndian, Hton32(LittleEndian, Layout(LittleEndian, 0x0001_0203))) == 0x0302_0100
    ensures Value(LittleEndian, Hton32(LittleEndian, Layout(LittleEndian, HEADER_BYTES))) == 0x3400_0000
  {
    assert Digits(0x0001_0203) == [3, 2, 1, 0];
    assert Digits(HEADER_BYTES) == [52, 0, 0, 0];
  }

  /** The record: seven unsigned fields and six float fields, each held
      in network byte order. */
  datatype VolHeader = VolHeader(
    magicNumber: Word,
    headerLength: Word,
    width: Word,
    height: Word,
    images: Word,
    bitsPerVoxel: Word,
    indexBits: Word,
    scaleX: Word, scaleY: Word, scaleZ: Word,
    rotX: Word, rotY: Word, rotZ: Word)

  /** The record's memory image, field after field: what is written to a
      file. */
  function Image(h: VolHeader): (m: seq<Byte>)
    ensures |m| == HEADER_BYTES == (UINT32_FIELDS + FLOAT_FIELDS) * FIELD_BYTES
  {
    h.magicNumber + h.headerLength + h.width + h.height + h.images + h.bitsPerVoxel + h.indexBits
    + h.scaleX + h.scaleY + h.scaleZ + h.rotX + h.rotY + h.rotZ
  }

  /** `uint32_t(n)`: a `size_t` cast keeps the low 32 bits. */
  function ToUint32(n: nat): (r: nat)
    ensures r < UINT32_MODULUS
    ensures n < UINT32_MODULUS ==> r == n
    ensures (r - n) % UINT32_MODULUS == 0
  {
    n % UINT32_MODULUS
  }

  /** The fields the `(width, height, depth)` constructor assigns: every
      value converted to network order except `index_bits`, which is set
      to 0 directly. */
  function Fill(e: Endian, width: nat, height: nat, depth: nat): VolHeader
  {
    var one := Hton32(e, Layout(e, FLOAT_ONE_BITS));
    VolHeader(
      Hton32(e, Layout(e, MAGIC)), Hton32(e, Layout(e, HEADER_BYTES)),
      Hton32(e, Layout(e, ToUint32(width))), Hton32(e, Layout(e, ToUint32(height))), Hton32(e, Layout(e, ToUint32(depth))),
      Hton32(e, Layout(e, 8)), Layout(e, 0),
      one, one, one, one, one, one)
  }

  /** The constructor as written: after storing the header length in
      network order it asserts that the number the stored word stands for
      on this host is 52; `None` is that assertion failing. */
  function NewHeaderAsWritten(e: Endian, width: nat, height: nat, depth: nat): (r: Option<VolHeader>)
    ensures r.Some? <==> Value(e, Hton32(e, Layout(e, HEADER_BYTES))) == HEADER_BYTES
    ensures r.Some? ==> r.value == Fill(e, width, height, depth)
  {
    var h := Fill(e, width, height, depth);
    if Value(e, h.headerLength) == HEADER_BYTES then Some(h) else None
  }

  /** The as-written assertion holds on a big-endian host and fails on
      every little-endian one, whatever the dimensions. */
  lemma NewHeaderAsWrittenFailsOnLittleEndian(width: nat, height: nat, depth: nat)
    ensures NewHeaderAsWritten(BigEndian, width, height, depth).Some?
    ensures NewHeaderAsWritten(LittleEndian, width, height, depth) == None
  {
    LayoutRoundTrip(BigEndian, HEADER_BYTES, Layout(BigEndian, HEADER_BYTES));
    Hton32Tests();
  }

  /** The constructor with the assertion checking the header length in
      host order, which holds on either host. */
  function NewHeader(e: Endian, width: nat, height: nat, depth: nat): (h: VolHeader)
    ensures Value(e, Ntoh32(e, h.headerLength)) == HEADER_BYTES
  {
    Hton32Involution(e, Layout(e, HEADER_BYTES));
    LayoutRoundTrip(e, HEADER_BYTES, Layout(e, HEADER_BYTES));
    Fill(e, width, height, depth)
  }

  /** The getters: each field converted back to host order and read as a
      number. */
  function GetMagicNumber(e: Endian, h: VolHeader): nat { Value(e, Ntoh32(e, h.magicNumber)) }
  function GetHeaderLength(e: Endian, h: VolHeader): nat { Value(e, Ntoh32(e, h.headerLength)) }
  function GetWidth(e: Endian, h: VolHeader): nat { Value(e, Ntoh32(e, h.width)) }
  function GetHeight(e: Endian, h: VolHeader): nat { Value(e, Ntoh32(e, h.height)) }
  function GetImages(e: Endian, h: VolHeader): nat { Value(e, Ntoh32(e, h.images)) }
  function GetBitsPerVoxel(e: Endian, h: VolHeader): nat { Value(e, Ntoh32(e, h.bitsPerVoxel)) }
  function GetIndexBits(e: Endian, h: VolHeader): nat { Value(e, Ntoh32(e, h.indexBits)) }

  /** A number stored in network order reads back unchanged through
      `ntoh_uint32`. */
  lemma StoredReadsBack(e: Endian, n: nat)
    requires n < UINT32_MODULUS
    ensures Value(e, Ntoh32(e, Hton32(e, Layout(e, n)))) == n
  {
    Hton32Involution(e, Layout(e, n));
    LayoutRoundTrip(e, n, Layout(e, n));
  }

  /** Construct then get: the getters return the magic number, a header
      length of 52, 8 bits per voxel, no index bits and the dimensions cast
      to 32 bits, so dimensions below 2^32 come back unchanged. */
  lemma ConstructThenGet(e: Endian, width: nat, height: nat, depth: nat)
    ensures var h := NewHeader(e, width, height, depth);
      && GetMagicNumber(e, h) == MAGIC
      && GetHeaderLength(e, h) == HEADER_BYTES
      && GetBitsPerVoxel(e, h) == 8
      && GetIndexBits(e, h) == 0
      && GetWidth(e, h) == ToUint32(width)
      && GetHeight(e, h) == ToUint32(height)
      && GetImages(e, h) == ToUint32(depth)
  {
    StoredReadsBack(e, MAGIC);
    StoredReadsBack(e, HEADER_BYTES);
    StoredReadsBack(e, 8);
    StoredReadsBack(e, ToUint32(width));
    StoredReadsBack(e, ToUint32(height));
    StoredReadsBack(e, ToUint32(depth));
  }

  /** A constructed header lies in memory as the same bytes on either
      host: the image written to a file is portable. */
  lemma NewHeaderImageIsPortable(e: Endian, width: nat, height: nat, depth: nat)
    ensures Image(NewHeader(e, width, height, depth)) == Image(NewHeader(BigEndian, width, height, depth))
  {
    var h, b := NewHeader(e, width, height, depth), NewHeader(BigEndian, width, height, depth);
    Hton32IsNetworkOrder(e, MAGIC);
    Hton32IsNetworkOrder(e, HEADER_BYTES);
    Hton32IsNetworkOrder(e, ToUint32(width));
    Hton32IsNetworkOrder(e, ToUint32(height));
    Hton32IsNetworkOrder(e, ToUint32(depth));
    Hton32IsNetworkOrder(e, 8);
    Hton32IsNetworkOrder(e, FLOAT_ONE_BITS);
    assert Layout(e, 0) == Layout(BigEndian, 0);
    assert h == b;
  }
}
