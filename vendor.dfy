/**
 * The two PostgreSQL structs the version interface reads, seen through the
 * offsets of one release: ControlFileData (the pg_control file) and
 * XLogLongPageHeaderData (the header of the first page of a WAL segment).
 * Offsets differ from release to release and are parameters here; the widths
 * are those of the PostgreSQL types (uint64 system identifier, uint32 version
 * numbers, TimeLineID and sizes, uint16 page magic).
 */
module Vendor {
  import opened Integers
  import opened LittleEndian

  /**
   * How a release stores the checkpoint location. From 9.3 on it is one 64-bit
   * XLogRecPtr and the struct carries data_checksum_version; in 9.0 to 9.2 the
   * XLogRecPtr is a struct of two uint32 members, xlogid then xrecoff, and
   * there is no checksum member.
   */
  datatype ControlFormat =
    | Since93(checkPointAt: nat, dataChecksumVersionAt: nat)
    | Before93(checkPointAt: nat)

  /** Where the members of one release's ControlFileData sit, and sizeof the struct. */
  datatype ControlLayout = ControlLayout(
    size: nat,
    systemIdentifierAt: nat,
    pgControlVersionAt: nat,
    catalogVersionNoAt: nat,
    thisTimeLineIdAt: nat,     // checkPointCopy.ThisTimeLineID
    blckszAt: nat,
    xlogSegSizeAt: nat,
    format: ControlFormat)
  {
    function SystemIdentifier(): Span { Span(systemIdentifierAt, 8) }
    function PgControlVersion(): Span { Span(pgControlVersionAt, 4) }
    function CatalogVersionNo(): Span { Span(catalogVersionNoAt, 4) }
    function ThisTimeLineId(): Span { Span(thisTimeLineIdAt, 4) }
    function Blcksz(): Span { Span(blckszAt, 4) }
    function XlogSegSize(): Span { Span(xlogSegSizeAt, 4) }
    /** checkPoint, one 64-bit XLogRecPtr (9.3 on). */
    function CheckPoint(): Span
      requires format.Since93?
    {
      Span(format.checkPointAt, 8)
    }
    /** data_checksum_version (9.3 on). */
    function DataChecksumVersion(): Span
      requires format.Since93?
    {
      Span(format.dataChecksumVersionAt, 4)
    }
    /** checkPoint.xlogid, the first member of the XLogRecPtr struct (9.0 to 9.2). */
    function Xlogid(): Span
      requires format.Before93?
    {
      Span(format.checkPointAt, 4)
    }
    /** checkPoint.xrecoff, the second member of the XLogRecPtr struct (9.0 to 9.2). */
    function Xrecoff(): Span
      requires format.Before93?
    {
      Span(format.checkPointAt + 4, 4)
    }

    /** The members that only this layout's format has. */
    function FormatSpans(): seq<Span> {
      match format
      case Since93(_, _) => [CheckPoint(), DataChecksumVersion()]
      case Before93(_) => [Xlogid(), Xrecoff()]
    }

    /** Every member the interface reads, in a fixed order. */
    function Spans(): seq<Span> {
      [SystemIdentifier(), PgControlVersion(), CatalogVersionNo(), ThisTimeLineId(),
       Blcksz(), XlogSegSize()] + FormatSpans()
    }

    /** Every member lies inside the struct. */
    predicate Fits() {
      FitIn(Spans(), size)
    }

    /** The members lie inside the struct and do not overlap, as in a C struct. */
    predicate WellFormed() {
      Fits() && AllDisjoint(Spans())
    }
  }

  /** A buffer that may be read as this layout's struct. */
  predicate ControlReadable(l: ControlLayout, b: seq<byte>) {
    l.Fits() && |b| >= l.size
  }

  /*
   * Member access through a ControlFileData pointer cast over the buffer.
   */

  /** system_identifier: the member's bytes are the little-endian encoding of the result. */
  function SystemIdentifierOf(l: ControlLayout, b: seq<byte>): (r: uint64)
    requires ControlReadable(l, b)
    ensures Encode(r, 8) == b[l.SystemIdentifier().at..l.SystemIdentifier().at + 8]
  {
    assert l.Spans()[0] == l.SystemIdentifier();
    Read(b, l.SystemIdentifier())
  }

  /** pg_control_version: the member's bytes are the little-endian encoding of the result. */
  function PgControlVersionOf(l: ControlLayout, b: seq<byte>): (r: uint32)
    requires ControlReadable(l, b)
    ensures Encode(r, 4) == b[l.PgControlVersion().at..l.PgControlVersion().at + 4]
  {
    assert l.Spans()[1] == l.PgControlVersion();
    Read(b, l.PgControlVersion())
  }

  /** catalog_version_no: the member's bytes are the little-endian encoding of the result. */
  function CatalogVersionNoOf(l: ControlLayout, b: seq<byte>): (r: uint32)
    requires ControlReadable(l, b)
    ensures Encode(r, 4) == b[l.CatalogVersionNo().at..l.CatalogVersionNo().at + 4]
  {
    assert l.Spans()[2] == l.CatalogVersionNo();
    Read(b, l.CatalogVersionNo())
  }

  /** checkPointCopy.ThisTimeLineID: the member's bytes are the little-endian encoding of the result. */
  function ThisTimeLineIdOf(l: ControlLayout, b: seq<byte>): (r: uint32)
    requires ControlReadable(l, b)
    ensures Encode(r, 4) == b[l.ThisTimeLineId().at..l.ThisTimeLineId().at + 4]
  {
    assert l.Spans()[3] == l.ThisTimeLineId();
    Read(b, l.ThisTimeLineId())
  }

  /** blcksz: the member's bytes are the little-endian encoding of the result. */
  function BlckszOf(l: ControlLayout, b: seq<byte>): (r: uint32)
    requires ControlReadable(l, b)
    ensures Encode(r, 4) == b[l.Blcksz().at..l.Blcksz().at + 4]
  {
    assert l.Spans()[4] == l.Blcksz();
    Read(b, l.Blcksz())
  }

  /** xlog_seg_size: the member's bytes are the little-endian encoding of the result. */
  function XlogSegSizeOf(l: ControlLayout, b: seq<byte>): (r: uint32)
    requires ControlReadable(l, b)
    ensures Encode(r, 4) == b[l.XlogSegSize().at..l.XlogSegSize().at + 4]
  {
    assert l.Spans()[5] == l.XlogSegSize();
    Read(b, l.XlogSegSize())
  }

  /** checkPoint (9.3 on): the member's bytes are the little-endian encoding of the result. */
  function CheckPointOf(l: ControlLayout, b: seq<byte>): (r: uint64)
    requires ControlReadable(l, b) && l.format.Since93?
    ensures Encode(r, 8) == b[l.CheckPoint().at..l.CheckPoint().at + 8]
  {
    assert l.Spans()[6] == l.CheckPoint();
    Read(b, l.CheckPoint())
  }

  /** data_checksum_version (9.3 on): the member's bytes are the little-endian encoding of the result. */
  function DataChecksumVersionOf(l: ControlLayout, b: seq<byte>): (r: uint32)
    requires ControlReadable(l, b) && l.format.Since93?
    ensures Encode(r, 4) == b[l.DataChecksumVersion().at..l.DataChecksumVersion().at + 4]
  {
    assert l.Spans()[7] == l.DataChecksumVersion();
    Read(b, l.DataChecksumVersion())
  }

  /** checkPoint.xlogid (9.0 to 9.2): the member's bytes are the little-endian encoding of the result. */
  function XlogidOf(l: ControlLayout, b: seq<byte>): (r: uint32)
    requires ControlReadable(l, b) && l.format.Before93?
    ensures Encode(r, 4) == b[l.Xlogid().at..l.Xlogid().at + 4]
  {
    assert l.Spans()[6] == l.Xlogid();
    Read(b, l.Xlogid())
  }

  /** checkPoint.xrecoff (9.0 to 9.2): the member's bytes are the little-endian encoding of the result. */
  function XrecoffOf(l: ControlLayout, b: seq<byte>): (r: uint32)
    requires ControlReadable(l, b) && l.format.Before93?
    ensures Encode(r, 4) == b[l.Xrecoff().at..l.Xrecoff().at + 4]
  {
    assert l.Spans()[7] == l.Xrecoff();
    Read(b, l.Xrecoff())
  }

  /** Buffers with the same bytes in every member give the same member values. */
  lemma ControlMembersAgree(l: ControlLayout, a: seq<byte>, b: seq<byte>)
    requires ControlReadable(l, a) && ControlReadable(l, b)
    requires SameMembers(l.Spans(), a, b)
    ensures SystemIdentifierOf(l, a) == SystemIdentifierOf(l, b)
    ensures PgControlVersionOf(l, a) == PgControlVersionOf(l, b)
    ensures CatalogVersionNoOf(l, a) == CatalogVersionNoOf(l, b)
    ensures ThisTimeLineIdOf(l, a) == ThisTimeLineIdOf(l, b)
    ensures BlckszOf(l, a) == BlckszOf(l, b)
    ensures XlogSegSizeOf(l, a) == XlogSegSizeOf(l, b)
    ensures l.format.Since93? ==>
      CheckPointOf(l, a) == CheckPointOf(l, b) && DataChecksumVersionOf(l, a) == DataChecksumVersionOf(l, b)
    ensures l.format.Before93? ==>
      XlogidOf(l, a) == XlogidOf(l, b) && XrecoffOf(l, a) == XrecoffOf(l, b)
  {
    assert l.Spans()[0] == l.SystemIdentifier();
    assert l.Spans()[1] == l.PgControlVersion();
    assert l.Spans()[2] == l.CatalogVersionNo();
    assert l.Spans()[3] == l.ThisTimeLineId();
    assert l.Spans()[4] == l.Blcksz();
    assert l.Spans()[5] == l.XlogSegSize();
    if l.format.Since93? {
      assert l.Spans()[6] == l.CheckPoint();
      assert l.Spans()[7] == l.DataChecksumVersion();
    } else {
      assert l.Spans()[6] == l.Xlogid();
      assert l.Spans()[7] == l.Xrecoff();
    }
  }

  /** The members of ControlFileData that the interface reads, for either format. */
  datatype ControlFileData =
    | ControlFileData93(
        systemIdentifier: uint64, pgControlVersion: uint32, catalogVersionNo: uint32,
        thisTimeLineId: uint32, blcksz: uint32, xlogSegSize: uint32,
        checkPoint: uint64, dataChecksumVersion: uint32)
    | ControlFileData90(
        systemIdentifier: uint64, pgControlVersion: uint32, catalogVersionNo: uint32,
        thisTimeLineId: uint32, blcksz: uint32, xlogSegSize: uint32,
        xlogid: uint32, xrecoff: uint32)

  predicate Conforms(l: ControlLayout, c: ControlFileData) {
    l.format.Since93? <==> c.ControlFileData93?
  }

  /** The member values of `c` in the order of `ControlLayout.Spans`. */
  function ControlValues(c: ControlFileData): seq<nat> {
    [c.systemIdentifier, c.pgControlVersion, c.catalogVersionNo, c.thisTimeLineId,
     c.blcksz, c.xlogSegSize] +
    match c
    case ControlFileData93(_, _, _, _, _, _, checkPoint, checksum) => [checkPoint, checksum]
    case ControlFileData90(_, _, _, _, _, _, xlogid, xrecoff) => [xlogid, xrecoff]
  }

  lemma ControlValuesFit(l: ControlLayout, c: ControlFileData)
    requires Conforms(l, c)
    ensures ValuesFit(l.Spans(), ControlValues(c))
  {
  }

  /**
   * The bytes of a pg_control file holding `c`: `padding` supplies every byte
   * outside the members (padding, members the interface does not read).
   */
  function SerializeControl(l: ControlLayout, c: ControlFileData, padding: seq<byte>): (b: seq<byte>)
    requires l.WellFormed() && Conforms(l, c) && |padding| == l.size
    ensures ControlReadable(l, b) && |b| == l.size
    ensures forall i :: 0 <= i < |b| && OutsideAll(l.Spans(), i) ==> b[i] == padding[i]
  {
    ControlValuesFit(l, c);
    WriteAll(padding, l.Spans(), ControlValues(c))
  }

  /** Every member of a serialized pg_control reads back as the value it was given. */
  lemma ReadSerializedControl(l: ControlLayout, c: ControlFileData, padding: seq<byte>)
    requires l.WellFormed() && Conforms(l, c) && |padding| == l.size
    ensures var b := SerializeControl(l, c, padding);
      && SystemIdentifierOf(l, b) == c.systemIdentifier
      && PgControlVersionOf(l, b) == c.pgControlVersion
      && CatalogVersionNoOf(l, b) == c.catalogVersionNo
      && ThisTimeLineIdOf(l, b) == c.thisTimeLineId
      && BlckszOf(l, b) == c.blcksz
      && XlogSegSizeOf(l, b) == c.xlogSegSize
      && (c.ControlFileData93? ==>
            CheckPointOf(l, b) == c.checkPoint && DataChecksumVersionOf(l, b) == c.dataChecksumVersion)
      && (c.ControlFileData90? ==>
            XlogidOf(l, b) == c.xlogid && XrecoffOf(l, b) == c.xrecoff)
  {
    ControlValuesFit(l, c);
    var b := SerializeControl(l, c, padding);
    forall k | 0 <= k < 8
      ensures Read(b, l.Spans()[k]) == ControlValues(c)[k]
    {
      ReadWriteAll(padding, l.Spans(), ControlValues(c), k);
    }
    assert Read(b, l.Spans()[1]) == c.pgControlVersion;
    assert Read(b, l.Spans()[2]) == c.catalogVersionNo;
    assert Read(b, l.Spans()[3]) == c.thisTimeLineId;
    assert Read(b, l.Spans()[4]) == c.blcksz;
    assert Read(b, l.Spans()[5]) == c.xlogSegSize;
    if c.ControlFileData93? {
      assert Read(b, l.Spans()[6]) == c.checkPoint;
      assert Read(b, l.Spans()[7]) == c.dataChecksumVersion;
    } else {
      assert Read(b, l.Spans()[6]) == c.xlogid;
      assert Read(b, l.Spans()[7]) == c.xrecoff;
    }
  }

  /** Where the members of one release's XLogLongPageHeaderData sit. */
  datatype WalLayout = WalLayout(
    pageHeaderSize: nat,        // sizeof(XLogPageHeaderData)
    longPageHeaderSize: nat,    // sizeof(XLogLongPageHeaderData)
    xlpMagicAt: nat,
    xlpSysidAt: nat,
    xlpSegSizeAt: nat)
  {
    function XlpMagic(): Span { Span(xlpMagicAt, 2) }
    function XlpSysid(): Span { Span(xlpSysidAt, 8) }
    function XlpSegSize(): Span { Span(xlpSegSizeAt, 4) }

    function Spans(): seq<Span> { [XlpMagic(), XlpSysid(), XlpSegSize()] }

    /** The magic lies in the short header, which the long header begins with. */
    predicate Fits() {
      XlpMagic().End() <= pageHeaderSize <= longPageHeaderSize && FitIn(Spans(), longPageHeaderSize)
    }

    predicate WellFormed() {
      Fits() && AllDisjoint(Spans())
    }
  }

  /** A buffer that may be read as this layout's short page header. */
  predicate WalPageReadable(l: WalLayout, b: seq<byte>) {
    l.Fits() && |b| >= l.pageHeaderSize
  }

  /** A buffer that may be read as this layout's long page header. */
  predicate WalLongPageReadable(l: WalLayout, b: seq<byte>) {
    l.Fits() && |b| >= l.longPageHeaderSize
  }

  /** The members of XLogLongPageHeaderData that the interface reads. */
  datatype XLogLongPageHeaderData = XLogLongPageHeaderData(xlpMagic: uint16, xlpSysid: uint64, xlpSegSize: uint32)

  function WalValues(h: XLogLongPageHeaderData): seq<nat> {
    [h.xlpMagic, h.xlpSysid, h.xlpSegSize]
  }

  /** The bytes of a long page header holding `h`, the other bytes taken from `padding`. */
  function SerializeWal(l: WalLayout, h: XLogLongPageHeaderData, padding: seq<byte>): (b: seq<byte>)
    requires l.WellFormed() && |padding| == l.longPageHeaderSize
    ensures WalLongPageReadable(l, b) && |b| == l.longPageHeaderSize
    ensures forall i :: 0 <= i < |b| && OutsideAll(l.Spans(), i) ==> b[i] == padding[i]
  {
    assert Pow256(2) == 0x1_0000;
    WriteAll(padding, l.Spans(), WalValues(h))
  }

  /*
   * Member access through an XLogPageHeaderData or XLogLongPageHeaderData pointer cast over the buffer.
   */

  /** xlp_magic of the short header: its bytes are the little-endian encoding of the result. */
  function XlpMagicOf(l: WalLayout, b: seq<byte>): (r: uint16)
    requires WalPageReadable(l, b)
    ensures Encode(r, 2) == b[l.xlpMagicAt..l.xlpMagicAt + 2]
  {
    assert Pow256(2) == 0x1_0000;
    Read(b, l.XlpMagic())
  }

  /** xlp_sysid of the long header: its bytes are the little-endian encoding of the result. */
  function XlpSysidOf(l: WalLayout, b: seq<byte>): (r: uint64)
    requires WalLongPageReadable(l, b)
    ensures Encode(r, 8) == b[l.xlpSysidAt..l.xlpSysidAt + 8]
  {
    assert l.Spans()[1] == l.XlpSysid();
    Read(b, l.XlpSysid())
  }

  /** xlp_seg_size of the long header: its bytes are the little-endian encoding of the result. */
  function XlpSegSizeOf(l: WalLayout, b: seq<byte>): (r: uint32)
    requires WalLongPageReadable(l, b)
    ensures Encode(r, 4) == b[l.xlpSegSizeAt..l.xlpSegSizeAt + 4]
  {
    assert l.Spans()[2] == l.XlpSegSize();
    Read(b, l.XlpSegSize())
  }

  /** Every member of a serialized long page header reads back as the value it was given. */
  lemma ReadSerializedWal(l: WalLayout, h: XLogLongPageHeaderData, padding: seq<byte>)
    requires l.WellFormed() && |padding| == l.longPageHeaderSize
    ensures var b := SerializeWal(l, h, padding);
      && XlpMagicOf(l, b) == h.xlpMagic
      && XlpSysidOf(l, b) == h.xlpSysid
      && XlpSegSizeOf(l, b) == h.xlpSegSize
  {
    assert Pow256(2) == 0x1_0000;
    ReadWriteAll(padding, l.Spans(), WalValues(h), 0);
    ReadWriteAll(padding, l.Spans(), WalValues(h), 1);
    ReadWriteAll(padding, l.Spans(), WalValues(h), 2);
  }
}
