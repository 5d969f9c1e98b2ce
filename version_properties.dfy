/**
 * What the per-release functions promise: the two catalog rules, the
 * decoders against the struct they read, and when two releases' tests cannot
 * both accept the same bytes.
 */
module VersionProperties {
  import opened Integers
  import opened LittleEndian
  import opened Vendor
  import opened VersionInterface

  /*
   * Catalog matching
   */

  /**
   * The exact rule: a pg_control file holding `c` is recognised iff its control
   * version is PG_CONTROL_VERSION and its catalog version is CATALOG_VERSION_NO.
   */
  lemma ControlIsExact(v: PgInterface, c: ControlFileData, padding: seq<byte>)
    requires v.control.WellFormed() && Conforms(v.control, c) && |padding| == v.control.size
    requires v.catalogMatch == Exact
    ensures ControlIs(v, SerializeControl(v.control, c, padding)) <==>
      c.pgControlVersion == v.controlVersion && c.catalogVersionNo == v.catalogVersion
  {
    ControlIsOfSerialized(v, c, padding);
  }

  /** Below the next year's first number is the same as in the same year. */
  lemma CatalogLimitIsYearEnd(base: nat, catalog: nat)
    requires base <= catalog
    ensures catalog < CatalogLimit(base) <==> catalog / CatalogYearDivisor == base / CatalogYearDivisor
  {
  }

  /**
   * The range rule: the control version is the release's and the catalog
   * version is at least the base one and encodes the same year.
   */
  lemma ControlIsWithinYear(v: PgInterface, controlFile: seq<byte>)
    requires ControlReadable(v.control, controlFile) && v.catalogMatch == ToEndOfYear
    ensures ControlIs(v, controlFile) <==>
      && PgControlVersionOf(v.control, controlFile) == v.controlVersion
      && v.catalogVersion <= CatalogVersionNoOf(v.control, controlFile)
      && CatalogVersionNoOf(v.control, controlFile) / CatalogYearDivisor == v.catalogVersion / CatalogYearDivisor
  {
  }

  /**
   * The range rule accepts the base catalog version and the last number of its
   * year, and rejects everything before the base and everything from the first
   * number of the next year on.
   */
  lemma RangeBoundaries(v: PgInterface)
    requires v.catalogMatch == ToEndOfYear
    ensures CatalogAccepted(v, v.catalogVersion)
    ensures v.catalogVersion <= CatalogLimit(v.catalogVersion) - 1
    ensures CatalogAccepted(v, CatalogLimit(v.catalogVersion) - 1)
    ensures !CatalogAccepted(v, CatalogLimit(v.catalogVersion))
    ensures forall catalog: nat :: catalog >= CatalogLimit(v.catalogVersion) ==> !CatalogAccepted(v, catalog)
    ensures forall catalog: nat :: catalog < v.catalogVersion ==> !CatalogAccepted(v, catalog)
  {
  }

  /** Whatever the exact rule accepts, the range rule accepts for the same constants. */
  lemma ExactWithinRange(v: PgInterface, controlFile: seq<byte>)
    requires ControlReadable(v.control, controlFile)
    requires ControlIs(v.(catalogMatch := Exact), controlFile)
    ensures ControlIs(v.(catalogMatch := ToEndOfYear), controlFile)
  {
  }

  /** Either rule accepts one interval of catalog numbers, starting at the base. */
  lemma CatalogInterval(v: PgInterface, catalog: nat)
    ensures CatalogAccepted(v, catalog) <==> v.catalogVersion <= catalog < CatalogEnd(v)
  {
  }

  /*
   * Decoding, against the struct a file holds
   */

  /** The control version getter returns the constant the control test compares with. */
  lemma ControlVersionIsCompared(v: PgInterface, controlFile: seq<byte>)
    requires ControlReadable(v.control, controlFile) && ControlIs(v, controlFile)
    ensures PgControlVersionOf(v.control, controlFile) == ControlVersion(v)
    ensures CatalogAccepted(v, Control(v, controlFile).catalogVersion)
  {
  }

  /** A pg_control file holding `c` is recognised exactly when `c` carries the release's constants. */
  lemma ControlIsOfSerialized(v: PgInterface, c: ControlFileData, padding: seq<byte>)
    requires v.control.WellFormed() && Conforms(v.control, c) && |padding| == v.control.size
    ensures ControlIs(v, SerializeControl(v.control, c, padding)) <==>
      c.pgControlVersion == v.controlVersion && CatalogAccepted(v, c.catalogVersionNo)
  {
    ReadSerializedControl(v.control, c, padding);
  }

  /**
   * Decoding a pg_control file holding `c`: the members are copied, a split
   * checkpoint is joined as xlogid * 2^32 + xrecoff, and the checksum flag is
   * data_checksum_version != 0 from 9.3 on and false before.
   */
  lemma ControlOfSerialized(v: PgInterface, c: ControlFileData, padding: seq<byte>)
    requires v.control.WellFormed() && Conforms(v.control, c) && |padding| == v.control.size
    requires c.pgControlVersion == v.controlVersion && CatalogAccepted(v, c.catalogVersionNo)
    ensures var b := SerializeControl(v.control, c, padding);
      ControlIs(v, b) &&
      Control(v, b) == PgControl(
        systemId := c.systemIdentifier,
        catalogVersion := c.catalogVersionNo,
        checkpoint := match c
          case ControlFileData93(_, _, _, _, _, _, checkPoint, _) => checkPoint
          case ControlFileData90(_, _, _, _, _, _, xlogid, xrecoff) => xlogid * Two32 + xrecoff,
        timeline := c.thisTimeLineId,
        pageSize := c.blcksz,
        walSegmentSize := c.xlogSegSize,
        pageChecksum := c.ControlFileData93? && c.dataChecksumVersion != 0)
  {
    ReadSerializedControl(v.control, c, padding);
  }

  /**
   * The control test and decoder read the named members only: bytes anywhere
   * else (padding, members the interface does not use, the place where a 9.3+
   * release would keep data_checksum_version in a 9.0-9.2 file) do not change
   * their results.
   */
  lemma ControlReadsMembersOnly(v: PgInterface, a: seq<byte>, b: seq<byte>)
    requires ControlReadable(v.control, a) && ControlReadable(v.control, b)
    requires SameMembers(v.control.Spans(), a, b)
    ensures ControlIs(v, a) == ControlIs(v, b)
    ensures ControlIs(v, a) ==> Control(v, a) == Control(v, b)
  {
    ControlMembersAgree(v.control, a, b);
  }

  /** A WAL page header holding `h` is recognised exactly when its magic is the release's. */
  lemma WalIsOfSerialized(v: PgInterface, h: XLogLongPageHeaderData, padding: seq<byte>)
    requires v.wal.WellFormed() && |padding| == v.wal.longPageHeaderSize
    ensures WalIs(v, SerializeWal(v.wal, h, padding)) <==> h.xlpMagic == v.walMagic
  {
    ReadSerializedWal(v.wal, h, padding);
  }

  /** Decoding a long page header holding `h` gives its system identifier and segment size. */
  lemma WalOfSerialized(v: PgInterface, h: XLogLongPageHeaderData, padding: seq<byte>)
    requires v.wal.WellFormed() && |padding| == v.wal.longPageHeaderSize
    requires h.xlpMagic == v.walMagic
    ensures var b := SerializeWal(v.wal, h, padding);
      WalIs(v, b) && Wal(v, b) == PgWal(systemId := h.xlpSysid, size := h.xlpSegSize)
  {
    ReadSerializedWal(v.wal, h, padding);
  }

  /*
   * When two releases cannot both claim the same bytes
   */

  /** Two releases whose accepted catalog intervals do not meet. */
  predicate CatalogsDisjoint(v1: PgInterface, v2: PgInterface) {
    CatalogEnd(v1) <= v2.catalogVersion || CatalogEnd(v2) <= v1.catalogVersion
  }

  /**
   * Releases that keep pg_control_version and catalog_version_no at the same
   * offsets, with different control versions or catalog intervals that do not
   * meet, never both recognise one pg_control file.
   */
  lemma ControlExclusive(v1: PgInterface, v2: PgInterface, controlFile: seq<byte>)
    requires ControlReadable(v1.control, controlFile) && ControlReadable(v2.control, controlFile)
    requires v1.control.pgControlVersionAt == v2.control.pgControlVersionAt
    requires v1.control.catalogVersionNoAt == v2.control.catalogVersionNoAt
    requires v1.controlVersion != v2.controlVersion || CatalogsDisjoint(v1, v2)
    ensures !(ControlIs(v1, controlFile) && ControlIs(v2, controlFile))
  {
  }

  /** Releases that keep xlp_magic at the same offset, with different magics, never both recognise one WAL page. */
  lemma WalExclusive(v1: PgInterface, v2: PgInterface, walFile: seq<byte>)
    requires WalPageReadable(v1.wal, walFile) && WalPageReadable(v2.wal, walFile)
    requires v1.wal.xlpMagicAt == v2.wal.xlpMagicAt && v1.walMagic != v2.walMagic
    ensures !(WalIs(v1, walFile) && WalIs(v2, walFile))
  {
  }

  /*
   * Worked values
   */

  /** A 9.0-9.2 checkpoint with xlogid 1 and xrecoff 0x20 is the location 0x100000020. */
  lemma SplitCheckpointExample()
    ensures Join32(0x1, 0x20) == 0x1_0000_0020
  {
  }

  /**
   * Year buckets. For the nine-digit YYYYMMDDN numbers PostgreSQL uses, a base
   * of 202307071 accepts up to 202399999 and rejects 202400000. The bucket is
   * computed by dividing by 100000 whatever the number of digits: for an
   * eight-digit base such as 20230101 it runs up to 20299999, so 20240100 is
   * still accepted.
   */
  lemma CatalogBucketExamples(v: PgInterface)
    requires v.catalogMatch == ToEndOfYear
    ensures v.catalogVersion == 202307071 ==>
      CatalogAccepted(v, 202399999) && !CatalogAccepted(v, 202400000) && !CatalogAccepted(v, 202307070)
    ensures v.catalogVersion == 20230101 ==>
      CatalogAccepted(v, 20230150) && CatalogAccepted(v, 20240100) && !CatalogAccepted(v, 20300000)
  {
  }
}
