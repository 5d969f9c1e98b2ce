# PostgreSQL version interface of pgBackRest, in Dafny

pgBackRest reads `pg_control` and the first page header of WAL segments written by many PostgreSQL
releases, each with its own struct layout, without linking against PostgreSQL. The header
`src/postgres/interface/version.intern.h` generates, for every supported release, five functions
over the release's vendored structs:

- `pgInterfaceControlIs<V>`: is this `pg_control` of release V? The control version must equal
  `PG_CONTROL_VERSION`, and the catalog version must equal `CATALOG_VERSION_NO`, or, when the
  release defines `CATALOG_VERSION_NO_MAX`, lie between `CATALOG_VERSION_NO` and the end of the
  year it encodes.
- `pgInterfaceControl<V>`: decode `ControlFileData` into the common `PgControl`. From 9.3 on the
  checkpoint is one 64-bit value and `pageChecksum` is `data_checksum_version != 0`. In 9.0 to 9.2
  the checkpoint is `xlogid << 32 | xrecoff`, and `pageChecksum` stays zero (false).
- `pgInterfaceControlVersion<V>`: the release's `PG_CONTROL_VERSION`.
- `pgInterfaceWalIs<V>`: does the page magic equal `XLOG_PAGE_MAGIC`?
- `pgInterfaceWal<V>`: decode `XLogLongPageHeaderData` into `PgWal`.

The model replaces the macros and the `#if PG_VERSION` gating with one descriptor per release,
`VersionInterface.PgInterface`. It holds the three constants, the catalog rule (`Exact` or
`ToEndOfYear`, i.e. `CATALOG_VERSION_NO_MAX` defined) and the offsets of the struct members.
The control layout's format is `Since93` or `Before93`. Each of the five functions is written once
over that descriptor.

The input is a byte buffer. A struct member is read little-endian, at the offset the layout gives,
with the width of its PostgreSQL type: 8 bytes for the system identifier and 64-bit checkpoint,
4 for the other `pg_control` members, 2 for `xlp_magic`. The C code casts the buffer without
checking its length. So every function requires a buffer at least as long as the struct, and the
layout's members must lie inside the struct. The decoders also require their own match test, as
the C `ASSERT`s do.

Files:

- `integers.dfy` (`Integers`): fixed-width unsigned types, C's `<<` on `uint64_t` and `|`, taken bit
  by bit, and the 9.0-9.2 checkpoint join.
- `little_endian.dfy` (`LittleEndian`): little-endian members of a byte buffer. Reads, writes and
  their round trips.
- `vendor.dfy` (`Vendor`): the layouts of `ControlFileData` and `XLogLongPageHeaderData`, member
  access through the cast, and the serialisation of a struct value into bytes. Serialisation is the
  reference the decoders are proved against.
- `version_interface.dfy` (`VersionInterface`): the descriptor, `PgControl`, `PgWal` and the five
  functions.
- `version_properties.dfy` (`VersionProperties`): the properties of the five functions.

Catalog buckets: `(CATALOG_VERSION_NO / 100000 + 1) * 100000` is the start of the next year only for
the nine-digit `YYYYMMDDN` numbers PostgreSQL uses. The model follows the code for every base. For
an eight-digit base such as 20230101 the bound is 20300000, so 20240100 is still accepted
(`VersionProperties.CatalogBucketExamples`).

## Model

| member | source | states |
|---|---|---|
| `VersionInterface.ControlIs` | src/postgres/interface/version.intern.h:23-46 | a file is recognised iff its `pg_control_version` is `PG_CONTROL_VERSION` and its `catalog_version_no` lies in the one interval the release's rule accepts: the base alone, or from the base to the end of its year; the lemmas below state each rule on its own |
| `VersionInterface.CatalogLimit` | src/postgres/interface/version.intern.h:32 | `(CATALOG_VERSION_NO / 100000 + 1) * 100000` is the least multiple of 100000 above the base: above it, a multiple of 100000, and at most 100000 past it |
| `VersionInterface.CatalogAccepted` | src/postgres/interface/version.intern.h:30-45 | whichever rule a release uses, an accepted catalog is at least the base and encodes the base's year |
| `VersionProperties.ControlIsExact` | src/postgres/interface/version.intern.h:37-46 | with the exact rule, the bytes of a `ControlFileData` value are recognised iff its `pg_control_version` is `PG_CONTROL_VERSION` and its `catalog_version_no` is `CATALOG_VERSION_NO` |
| `VersionProperties.CatalogLimitIsYearEnd` | src/postgres/interface/version.intern.h:12-15 | for a catalog at or above the base, being below `(base / 100000 + 1) * 100000` is the same as encoding the same year (`catalog / 100000 == base / 100000`) |
| `VersionProperties.ControlIsWithinYear` | src/postgres/interface/version.intern.h:23-33 | with the range rule, a file is recognised iff the control version matches, the catalog is at least the base and it encodes the base's year |
| `VersionProperties.RangeBoundaries` | src/postgres/interface/version.intern.h:30-32 | the range rule accepts the base and the last number of its year; it rejects everything below the base and everything from the first number of the next year on |
| `VersionProperties.ExactWithinRange` | src/postgres/interface/version.intern.h:30-45 | any file the exact rule accepts is also accepted by the range rule with the same constants |
| `VersionProperties.CatalogInterval` | src/postgres/interface/version.intern.h:30-45 | both rules accept exactly one interval of catalog numbers that starts at the base: one number for the exact rule, the rest of the year for the range rule |
| `VersionInterface.Control` | src/postgres/interface/version.intern.h:59-98 | requires the release's match test; the catalog it returns satisfies the release's rule; members are copied; from 9.3 on the checkpoint is `checkPoint` and `pageChecksum` iff `data_checksum_version != 0`; before 9.3 the checkpoint's high 32 bits are `xlogid`, its low 32 bits are `xrecoff`, and `pageChecksum` is false |
| `Integers.Join32` | src/postgres/interface/version.intern.h:91-93 | the shift-or composition of `xlogid` and `xrecoff` equals `xlogid * 2^32 + xrecoff`; dividing by 2^32 gives back `xlogid` and the remainder is `xrecoff` |
| `Integers.BitOr` | src/postgres/interface/version.intern.h:92-93 | C's bitwise or on unsigned integers, taken bit by bit: the result is at least each operand and at most their sum |
| `Integers.BitOrOfDisjointBits` | src/postgres/interface/version.intern.h:92-93 | the bitwise or of a value shifted left by n bits and a value below 2^n is their sum, which is why the shift-or composition does not lose bits |
| `Integers.ShiftLeft64` | src/postgres/interface/version.intern.h:92 | a left shift of a `uint64_t` whose result fits in 64 bits is multiplication by 2^n |
| `Integers.Join32Injective` | src/postgres/interface/version.intern.h:91-93 | two 9.0-9.2 checkpoints with different `xlogid` or `xrecoff` never decode to the same location |
| `Integers.Join32Surjective` | src/postgres/interface/version.intern.h:91-93 | every 64-bit location is the join of its high and low halves |
| `VersionInterface.ControlVersion` | src/postgres/interface/version.intern.h:109-114 | every file the release's match test accepts carries the control version the getter returns |
| `VersionProperties.ControlVersionIsCompared` | src/postgres/interface/version.intern.h:64 | on a recognised file, the control version read is the getter's value, and the decoded catalog satisfies the release's rule |
| `VersionProperties.ControlIsOfSerialized` | src/postgres/interface/version.intern.h:23-46 | the bytes of a `ControlFileData` value are recognised iff the value's control version is the release's and its catalog satisfies the release's rule |
| `VersionProperties.ControlOfSerialized` | src/postgres/interface/version.intern.h:59-98 | decoding the bytes of a `ControlFileData` value gives its system identifier, catalog, timeline, block size and segment size; its checkpoint, or `xlogid * 2^32 + xrecoff` before 9.3; and its checksum flag, or false before 9.3; whatever the padding bytes |
| `VersionProperties.ControlReadsMembersOnly` | src/postgres/interface/version.intern.h:80-98 | two files agreeing on the bytes of the members read give the same match result and the same decode; stray bytes elsewhere, such as where later releases keep the checksum version, change nothing |
| `Vendor.SystemIdentifierOf` | src/postgres/interface/version.intern.h:68 | reading `system_identifier` through the struct cast: the 8 bytes of the member are the little-endian encoding of the value returned |
| `Vendor.PgControlVersionOf` | src/postgres/interface/version.intern.h:30 | reading `pg_control_version` through the struct cast: the 4 bytes of the member are the little-endian encoding of the value returned |
| `Vendor.CatalogVersionNoOf` | src/postgres/interface/version.intern.h:69 | reading `catalog_version_no` through the struct cast: the 4 bytes of the member are the little-endian encoding of the value returned |
| `Vendor.ThisTimeLineIdOf` | src/postgres/interface/version.intern.h:71 | reading `checkPointCopy.ThisTimeLineID` through the struct cast: the 4 bytes of the member are the little-endian encoding of the value returned |
| `Vendor.BlckszOf` | src/postgres/interface/version.intern.h:72 | reading `blcksz` through the struct cast: the 4 bytes of the member are the little-endian encoding of the value returned |
| `Vendor.XlogSegSizeOf` | src/postgres/interface/version.intern.h:73 | reading `xlog_seg_size` through the struct cast: the 4 bytes of the member are the little-endian encoding of the value returned |
| `Vendor.CheckPointOf` | src/postgres/interface/version.intern.h:70 | reading `checkPoint` (9.3 on) through the struct cast: the 8 bytes of the member are the little-endian encoding of the value returned |
| `Vendor.DataChecksumVersionOf` | src/postgres/interface/version.intern.h:74 | reading `data_checksum_version` (9.3 on) through the struct cast: the 4 bytes of the member are the little-endian encoding of the value returned |
| `Vendor.XlogidOf` | src/postgres/interface/version.intern.h:92 | reading `checkPoint.xlogid` (9.0 to 9.2) through the struct cast: the 4 bytes of the member are the little-endian encoding of the value returned |
| `Vendor.XrecoffOf` | src/postgres/interface/version.intern.h:93 | reading `checkPoint.xrecoff` (9.0 to 9.2) through the struct cast: the 4 bytes of the member are the little-endian encoding of the value returned |
| `Vendor.SerializeControl` | src/postgres/interface/version.intern.h:66-97 | the bytes of a `ControlFileData` value have the struct's size, and every byte outside the members read is the padding given |
| `Vendor.ReadSerializedControl` | src/postgres/interface/version.intern.h:66-97 | each member read through the cast from the bytes of a `ControlFileData` value is that value's member |
| `Vendor.ControlMembersAgree` | src/postgres/interface/version.intern.h:66-97 | each member read through the cast depends on that member's bytes only |
| `VersionInterface.WalIs` | src/postgres/interface/version.intern.h:125-132 | a WAL page is recognised iff the two bytes of `xlp_magic` are the little-endian encoding of `XLOG_PAGE_MAGIC` |
| `VersionInterface.Wal` | src/postgres/interface/version.intern.h:143-155 | requires the release's WAL test, as the `ASSERT` at :148 does; the fields it returns are those of the long page header, and `WalOfSerialized` ties them to the header value the bytes hold |
| `VersionProperties.WalIsOfSerialized` | src/postgres/interface/version.intern.h:125-132 | the bytes of a long page header are recognised iff its `xlp_magic` is the release's `XLOG_PAGE_MAGIC` |
| `VersionProperties.WalOfSerialized` | src/postgres/interface/version.intern.h:143-155 | decoding the bytes of a long page header with the release's magic gives its system identifier and segment size |
| `Vendor.XlpMagicOf` | src/postgres/interface/version.intern.h:131 | reading `xlp_magic` through the header cast: the 2 bytes of the member are the little-endian encoding of the value returned |
| `Vendor.XlpSysidOf` | src/postgres/interface/version.intern.h:152 | reading `xlp_sysid` through the header cast: the 8 bytes of the member are the little-endian encoding of the value returned |
| `Vendor.XlpSegSizeOf` | src/postgres/interface/version.intern.h:153 | reading `xlp_seg_size` through the header cast: the 4 bytes of the member are the little-endian encoding of the value returned |
| `Vendor.SerializeWal` | src/postgres/interface/version.intern.h:150-154 | the bytes of a long page header value have the struct's size, and every byte outside the members read is the padding given |
| `Vendor.ReadSerializedWal` | src/postgres/interface/version.intern.h:131-153 | each page header member read through the cast from the bytes of a header value is that value's member |
| `VersionProperties.ControlExclusive` | src/postgres/interface/version.intern.h:30-45 | two releases with the control and catalog versions at the same offsets, and with different control versions or non-overlapping catalog intervals, never both recognise one file |
| `VersionProperties.WalExclusive` | src/postgres/interface/version.intern.h:131 | two releases with `xlp_magic` at the same offset and different magics never both recognise one WAL page |
| `VersionProperties.SplitCheckpointExample` | src/postgres/interface/version.intern.h:91-93 | `xlogid` 1 and `xrecoff` 0x20 decode to the location 0x100000020 |
| `VersionProperties.CatalogBucketExamples` | src/postgres/interface/version.intern.h:30-32 | base 202307071 accepts 202399999 and rejects 202400000 and 202307070; base 20230101 accepts 20230150 and 20240100 and rejects 20300000 |
| `LittleEndian.ValueOfEncode` | src/postgres/interface/version.intern.h:68-74 | a value written as a little-endian member reads back unchanged |
| `LittleEndian.EncodeOfValue` | src/postgres/interface/version.intern.h:68-74 | the bytes of a member are the encoding of the value read from them, so reading a member is injective |
| `LittleEndian.ReadWriteAll` | src/postgres/interface/version.intern.h:66-75 | after members at pairwise disjoint offsets are written, each one reads back as written |

## Left out

- The registry of releases, its scan order and the public entry points are in `postgres/interface.c`. That file is not part of this model. So exclusivity between releases is stated only as a condition on two descriptors (`ControlExclusive`, `WalExclusive`), not checked against a concrete list of releases.
- The struct layouts and constants come from `version.vendor.h`, which is not part of this model. Offsets, struct sizes and the three constants are descriptor parameters; no release is written out.
- The `#if PG_VERSION` gating is modelled only as one descriptor per supported release. Releases before 9.0 or above `PG_VERSION_MAX`, which get no functions, have no descriptor.
- Short buffers: the C functions read through a struct cast with no length check. The model requires a buffer at least the size of the struct, and makes no claim that a short buffer gives false.
- The `ASSERT(... != NULL)` checks become the non-null sequence type. The `ASSERT` on the match test becomes a `requires` clause.
- Native byte order is modelled as little-endian only; big-endian hosts are not modelled.
- Member widths are fixed to the PostgreSQL types (uint64, uint32, uint16), not taken from a layout.
- `(CATALOG_VERSION_NO / 100000 + 1) * 100000` is evaluated on unbounded integers. C evaluates it in `int`, which overflows for catalog numbers of 2147400000 and above. No PostgreSQL catalog number comes near that.
- `PgControl` and `PgWal` are declared in `postgres/interface.h`, which is not part of this model. The records here hold the fields this header assigns. Any other field of the C records is left zero by the compound literal and is not modelled.
