/** The library version word: major, minor and patch bytes packed into the
    low 24 bits of a 32-bit word. */
module Version {

  const VERSION_MAJOR: bv8 := 1
  const VERSION_MINOR: bv8 := 3
  const VERSION_PATCH: bv8 := 18

  /** Places the three bytes at bits 16-23, 8-15 and 0-7. */
  function Pack(major: bv8, minor: bv8, patch: bv8): bv32
  {
    ((major as bv32) << 16) | ((minor as bv32) << 8) | (patch as bv32)
  }

  /** `version_create`: the version of this library as a packed word. */
  function VersionCreate(): (v: bv32)
    ensures v == 0x01_03_12
    ensures v < 1 << 24
  {
    Pack(VERSION_MAJOR, VERSION_MINOR, VERSION_PATCH)
  }

  /** `get_version`: the (major, minor, patch) bytes of a packed word.
      Repacking them gives back the word with its top byte cleared. */
  function GetVersion(version: bv32): (r: (bv8, bv8, bv8))
    ensures Pack(r.0, r.1, r.2) == version & 0xFF_FFFF
  {
    (((version >> 16) & 0xff) as bv8, ((version >> 8) & 0xff) as bv8, (version & 0xff) as bv8)
  }

  /** Unpacking inverts packing for every triple of bytes. */
  lemma UnpackPack(major: bv8, minor: bv8, patch: bv8)
    ensures GetVersion(Pack(major, minor, patch)) == (major, minor, patch)
  {
  }

  /** Bits 24-31 of a version word are never read. */
  lemma GetVersionIgnoresTopByte(version: bv32)
    ensures GetVersion(version) == GetVersion(version & 0xFF_FFFF)
    ensures GetVersion(version) == GetVersion(version % (1 << 24))
  {
  }

  /** The library's own version unpacks to 1.3.18. */
  lemma CurrentVersion()
    ensures GetVersion(VersionCreate()) == (VERSION_MAJOR, VERSION_MINOR, VERSION_PATCH)
    ensures GetVersion(VersionCreate()) == (1, 3, 18)
  {
    UnpackPack(VERSION_MAJOR, VERSION_MINOR, VERSION_PATCH);
  }

  /** Two words denote the same version exactly when they agree on their
      low 24 bits. */
  lemma SameVersionIff(v1: bv32, v2: bv32)
    ensures GetVersion(v1) == GetVersion(v2) <==> v1 & 0xFF_FFFF == v2 & 0xFF_FFFF
  {
    if GetVersion(v1) == GetVersion(v2) {
      var r := GetVersion(v1);
      calc {
        v1 & 0xFF_FFFF;
        Pack(r.0, r.1, r.2);
        v2 & 0xFF_FFFF;
      }
    }
    if v1 & 0xFF_FFFF == v2 & 0xFF_FFFF {
      calc {
        GetVersion(v1);
        { GetVersionIgnoresTopByte(v1); }
        GetVersion(v1 & 0xFF_FFFF);
        GetVersion(v2 & 0xFF_FFFF);
        { GetVersionIgnoresTopByte(v2); }
        GetVersion(v2);
      }
    }
  }
}
