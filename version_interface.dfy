/**
 * The per-release PostgreSQL interface: for each supported release, five
 * functions that recognise and decode that release's pg_control file and WAL
 * page header. In the C header they are stamped out once per release by
 * macros; here one descriptor per release (`PgInterface`) carries the
 * release's constants and layouts, and each function is written once over it.
 */
module VersionInterface {
  import opened Integers
  import opened LittleEndian
  import opened Vendor

  /**
   * How the catalog version of a pg_control file is matched: exactly, for a
   * released version; or, when the release defines CATALOG_VERSION_NO_MAX
   * (alpha, beta and release-candidate builds), from the base catalog version
   * to the end of the year it encodes.
   */
  datatype CatalogMatch = Exact | ToEndOfYear

  /** The constants of one supported release, and the layouts of its structs. */
  datatype PgInterface = PgInterface(
    controlVersion: uint32,   // PG_CONTROL_VERSION
    catalogVersion: uint32,   // CATALOG_VERSION_NO
    catalogMatch: CatalogMatch,
    walMagic: uint16,         // XLOG_PAGE_MAGIC
    control: ControlLayout,   // 9.3+ or 9.0-9.2 format in control.format
    wal: WalLayout)

  /** The version-independent decode of a pg_control file. */
  datatype PgControl = PgControl(
    systemId: uint64,
    catalogVersion: uint32,
    checkpoint: uint64,
    timeline: uint32,
    pageSize: uint32,
    walSegmentSize: uint32,
    pageChecksum: bool)

  /** The version-independent decode of a WAL segment's first page header. */
  datatype PgWal = PgWal(systemId: uint64, size: uint32)

  /** Catalog numbers are YYYYMMDDN: dividing by this leaves the year. */
  const CatalogYearDivisor: nat := 100000

  /**
   * `(CATALOG_VERSION_NO / 100000 + 1) * 100000`: the first catalog number of
   * the next year, i.e. the least multiple of 100000 above the base.
   */
  function CatalogLimit(catalogVersion: nat): (r: nat)
    ensures catalogVersion < r && r % CatalogYearDivisor == 0
    ensures r - CatalogYearDivisor <= catalogVersion
  {
    (catalogVersion / CatalogYearDivisor + 1) * CatalogYearDivisor
  }

  /** The catalog rule of pgInterfaceControlIs<V>. Either rule stays in the base's year. */
  predicate CatalogAccepted(v: PgInterface, catalog: nat)
    ensures CatalogAccepted(v, catalog) ==>
      v.catalogVersion <= catalog && catalog / CatalogYearDivisor == v.catalogVersion / CatalogYearDivisor
  {
    match v.catalogMatch
    case Exact => catalog == v.catalogVersion
    case ToEndOfYear => catalog >= v.catalogVersion && catalog < CatalogLimit(v.catalogVersion)
  }

  /** The first catalog number the rule rejects above the accepted ones. */
  function CatalogEnd(v: PgInterface): nat {
    match v.catalogMatch
    case Exact => v.catalogVersion + 1
    case ToEndOfYear => CatalogLimit(v.catalogVersion)
  }

  /**
   * pgInterfaceControlIs<V>: is this pg_control file one of release `v`? Its
   * control version is the release's and its catalog lies in the one interval
   * of catalog numbers the release's rule accepts.
   */
  function ControlIs(v: PgInterface, controlFile: seq<byte>): (r: bool)
    requires ControlReadable(v.control, controlFile)
    ensures r <==>
      && PgControlVersionOf(v.control, controlFile) == v.controlVersion
      && v.catalogVersion <= CatalogVersionNoOf(v.control, controlFile) < CatalogEnd(v)
  {
    PgControlVersionOf(v.control, controlFile) == v.controlVersion &&
    CatalogAccepted(v, CatalogVersionNoOf(v.control, controlFile))
  }

  /** pgInterfaceControl<V>: decode a pg_control file of release `v`. */
  function Control(v: PgInterface, controlFile: seq<byte>): (r: PgControl)
    requires ControlReadable(v.control, controlFile)
    requires ControlIs(v, controlFile)
    ensures CatalogAccepted(v, r.catalogVersion)
    ensures r.systemId == SystemIdentifierOf(v.control, controlFile)
    ensures r.catalogVersion == CatalogVersionNoOf(v.control, controlFile)
    ensures r.timeline == ThisTimeLineIdOf(v.control, controlFile)
    ensures r.pageSize == BlckszOf(v.control, controlFile)
    ensures r.walSegmentSize == XlogSegSizeOf(v.control, controlFile)
    ensures v.control.format.Since93? ==>
      && r.checkpoint == CheckPointOf(v.control, controlFile)
      && (r.pageChecksum <==> DataChecksumVersionOf(v.control, controlFile) != 0)
    ensures v.control.format.Before93? ==>
      && r.checkpoint / Two32 == XlogidOf(v.control, controlFile)
      && r.checkpoint % Two32 == XrecoffOf(v.control, controlFile)
      && !r.pageChecksum
  {
    var l := v.control;
    match l.format
    case Since93(_, _) =>
      PgControl(
        systemId := SystemIdentifierOf(l, controlFile),
        catalogVersion := CatalogVersionNoOf(l, controlFile),
        checkpoint := CheckPointOf(l, controlFile),
        timeline := ThisTimeLineIdOf(l, controlFile),
        pageSize := BlckszOf(l, controlFile),
        walSegmentSize := XlogSegSizeOf(l, controlFile),
        pageChecksum := DataChecksumVersionOf(l, controlFile) != 0)
    case Before93(_) =>
      // pageChecksum is not named in the C initialiser, so it is zero: false
      PgControl(
        systemId := SystemIdentifierOf(l, controlFile),
        catalogVersion := CatalogVersionNoOf(l, controlFile),
        checkpoint := Join32(XlogidOf(l, controlFile), XrecoffOf(l, controlFile)),
        timeline := ThisTimeLineIdOf(l, controlFile),
        pageSize := BlckszOf(l, controlFile),
        walSegmentSize := XlogSegSizeOf(l, controlFile),
        pageChecksum := false)
  }

  /** pgInterfaceControlVersion<V>: the control version a file of release `v` carries. */
  function ControlVersion(v: PgInterface): (r: uint32)
    ensures forall controlFile :: ControlReadable(v.control, controlFile) && ControlIs(v, controlFile) ==>
      PgControlVersionOf(v.control, controlFile) == r
  {
    v.controlVersion
  }

  /**
   * pgInterfaceWalIs<V>: is this WAL page header one of release `v`? The two
   * bytes of xlp_magic are XLOG_PAGE_MAGIC, least significant byte first.
   */
  function WalIs(v: PgInterface, walFile: seq<byte>): (r: bool)
    requires WalPageReadable(v.wal, walFile)
    ensures r <==> walFile[v.wal.xlpMagicAt..v.wal.xlpMagicAt + 2] == Encode(v.walMagic, 2)
  {
    assert Pow256(2) == 0x1_0000;
    ValueOfEncode(v.walMagic, 2);
    XlpMagicOf(v.wal, walFile) == v.walMagic
  }

  /** pgInterfaceWal<V>: decode the long page header of a WAL segment of release `v`. */
  function Wal(v: PgInterface, walFile: seq<byte>): (r: PgWal)
    requires WalLongPageReadable(v.wal, walFile)
    requires WalIs(v, walFile)
    ensures r.systemId == XlpSysidOf(v.wal, walFile)
    ensures r.size == XlpSegSizeOf(v.wal, walFile)
  {
    PgWal(systemId := XlpSysidOf(v.wal, walFile), size := XlpSegSizeOf(v.wal, walFile))
  }
}
