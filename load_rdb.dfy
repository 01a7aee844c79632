/**
 * MainWindow::LoadRdb (mainwindow.cpp): which package suffixes a game release
 * reloads as dead files, and the name the archive is shown under. The chain of
 * releases is meant to be the inverse of pkg_to_version.
 */
module LoadRdb {
  import opened QtString
  import opened VersionColumn

  /**
   * The packages whose files a release reloads as dead files. LoadRdb hands
   * RdbFile::ReloadAsDeadFiles their suffixes, '.' followed by each of these
   * names, which is the form bin_file has before RdbEntryToGui drops its first
   * character. Any other release text reloads nothing.
   */
  function DeadFilePackages(version: string): seq<string>
  {
    if version == "1.01" then ["bin", "bin_0"]
    else if version == "1.02" then ["bin2", "bin2_0"]
    else if version == "1.03" then ["bin3", "bin3_0"]
    else if version == "1.03b" then ["bin4", "bin4_0"]
    else if version == "1.04" then ["bin6", "bin6_0"]
    else if version == "1.04a" then ["bin7", "bin7_0"]
    else if version == "1.05" then ["bin8", "bin8_0"]
    else if version == "1.06" then ["bin9", "bin9_0"]
    else if version == "1.08" then ["bin11", "bin11_0"]
    else if version == "1.09" then ["bin12", "bin12_0"]
    else if version == "1.10" then ["bin13", "bin13_0"]
    else if version == "1.11" then ["bin14", "bin14_0"]
    else if version == "1.12" then ["bin15", "bin15_0"]
    else if version == "1.13" then ["bin16", "bin16_0"]
    else if version == "1.14" then ["bin17", "bin17_0"]
    else if version == "1.15" then ["bin18", "bin18_0", "bin19", "bin19_0"]
    else if version == "1.16" then ["bin20", "bin20_0"]
    else if version == "1.17" then ["bin21", "bin21_0"]
    else if version == "1.18" then ["bin22", "bin22_0"]
    else if version == "1.19" then ["bin23", "bin23_0"]
    else if version == "1.20" then ["bin24", "bin24_0"]
    else if version == "1.21" then ["bin25", "bin25_0"]
    else if version == "1.22" then ["bin27", "bin27_0"]
    else []
  }

  /** The releases the chain tests, in its order, in the four groups pkg_to_version is written in here. */
  const EarlyReleases: seq<string> := ["1.01", "1.02", "1.03", "1.03b", "1.04", "1.04a", "1.05", "1.06"]
  const MiddleReleases: seq<string> := ["1.08", "1.09", "1.10", "1.11", "1.12", "1.13", "1.14"]
  const LateReleases: seq<string> := ["1.15", "1.16", "1.17", "1.18"]
  const NewestReleases: seq<string> := ["1.19", "1.20", "1.21", "1.22"]
  const Releases: seq<string> := EarlyReleases + MiddleReleases + LateReleases + NewestReleases

  /** Every package a release reloads is one the table gives that same release. */
  predicate MapsBack(table: map<string, string>, version: string)
  {
    forall p <- DeadFilePackages(version) :: p in table && table[p] == version
  }

  /** A package of the table is among those reloaded for the release the table gives it. */
  predicate Reloaded(table: map<string, string>, pkg: string)
    requires pkg in table
  {
    pkg in DeadFilePackages(table[pkg])
  }

  lemma EarlyDisjointMiddle()
    ensures PkgEarly.Keys !! PkgMiddle.Keys
  {
  }

  lemma EarlyDisjointLate()
    ensures PkgEarly.Keys !! PkgLate.Keys
  {
  }

  lemma EarlyDisjointNewest()
    ensures PkgEarly.Keys !! PkgNewest.Keys
  {
  }

  lemma MiddleDisjointLate()
    ensures PkgMiddle.Keys !! PkgLate.Keys
  {
  }

  lemma MiddleDisjointNewest()
    ensures PkgMiddle.Keys !! PkgNewest.Keys
  {
  }

  lemma LateDisjointNewest()
    ensures PkgLate.Keys !! PkgNewest.Keys
  {
  }

  /** Every entry of `part` is an entry of `table`. */
  predicate SubTable(part: map<string, string>, table: map<string, string>)
  {
    forall k | k in part :: k in table && table[k] == part[k]
  }

  lemma MapsBackInSubTable(part: map<string, string>, table: map<string, string>, version: string)
    requires SubTable(part, table) && MapsBack(part, version)
    ensures MapsBack(table, version)
  {
  }

  /** pkg_to_version is exactly its four parts: a package is looked up in the part that lists it. */
  lemma PartsOfTable()
    ensures forall pkg :: pkg in PkgToVersionCorrected <==> pkg in PkgEarly || pkg in PkgMiddle || pkg in PkgLate || pkg in PkgNewest
    ensures SubTable(PkgEarly, PkgToVersionCorrected) && SubTable(PkgMiddle, PkgToVersionCorrected)
    ensures SubTable(PkgLate, PkgToVersionCorrected) && SubTable(PkgNewest, PkgToVersionCorrected)
  {
    EarlyDisjointMiddle();
    EarlyDisjointLate();
    EarlyDisjointNewest();
    MiddleDisjointLate();
    MiddleDisjointNewest();
    LateDisjointNewest();
  }

  /** Removing the two trailing spaces changes no package name. */
  lemma NewestSameKeys()
    ensures PkgNewestAsWritten.Keys == PkgNewest.Keys
  {
  }

  /** The table as written has the same four parts, its newest one with the two trailing spaces. */
  lemma PartsOfTableAsWritten()
    ensures SubTable(PkgEarly, PkgToVersionAsWritten) && SubTable(PkgMiddle, PkgToVersionAsWritten)
    ensures SubTable(PkgLate, PkgToVersionAsWritten) && SubTable(PkgNewestAsWritten, PkgToVersionAsWritten)
  {
    NewestSameKeys();
    EarlyDisjointMiddle();
    EarlyDisjointLate();
    EarlyDisjointNewest();
    MiddleDisjointLate();
    MiddleDisjointNewest();
    LateDisjointNewest();
  }

  lemma EarlyMapsBack()
    ensures forall v <- EarlyReleases :: MapsBack(PkgEarly, v)
  {
    Release1_01(); Release1_02(); Release1_03(); Release1_03b(); Release1_04(); Release1_04a(); Release1_05(); Release1_06();
  }

  lemma Release1_01()
    ensures MapsBack(PkgEarly, "1.01")
  {
  }

  lemma Release1_02()
    ensures MapsBack(PkgEarly, "1.02")
  {
  }

  lemma Release1_03()
    ensures MapsBack(PkgEarly, "1.03")
  {
  }

  lemma Release1_03b()
    ensures MapsBack(PkgEarly, "1.03b")
  {
  }

  lemma Release1_04()
    ensures MapsBack(PkgEarly, "1.04")
  {
  }

  lemma Release1_04a()
    ensures MapsBack(PkgEarly, "1.04a")
  {
  }

  lemma Release1_05()
    ensures MapsBack(PkgEarly, "1.05")
  {
  }

  lemma Release1_06()
    ensures MapsBack(PkgEarly, "1.06")
  {
  }

  lemma EarlyReloaded()
    ensures forall pkg | pkg in PkgEarly :: Reloaded(PkgEarly, pkg)
  {
  }

  lemma MiddleMapsBack()
    ensures forall v <- MiddleReleases :: MapsBack(PkgMiddle, v)
  {
    Release1_08(); Release1_09(); Release1_10(); Release1_11(); Release1_12(); Release1_13(); Release1_14();
  }

  lemma Release1_08()
    ensures MapsBack(PkgMiddle, "1.08")
  {
  }

  lemma Release1_09()
    ensures MapsBack(PkgMiddle, "1.09")
  {
  }

  lemma Release1_10()
    ensures MapsBack(PkgMiddle, "1.10")
  {
  }

  lemma Release1_11()
    ensures MapsBack(PkgMiddle, "1.11")
  {
  }

  lemma Release1_12()
    ensures MapsBack(PkgMiddle, "1.12")
  {
  }

  lemma Release1_13()
    ensures MapsBack(PkgMiddle, "1.13")
  {
  }

  lemma Release1_14()
    ensures MapsBack(PkgMiddle, "1.14")
  {
  }

  lemma MiddleReloaded()
    ensures forall pkg | pkg in PkgMiddle :: Reloaded(PkgMiddle, pkg)
  {
  }

  lemma LateMapsBack()
    ensures forall v <- LateReleases :: MapsBack(PkgLate, v)
  {
    Release1_15(); Release1_16(); Release1_17(); Release1_18();
  }

  lemma Release1_15()
    ensures MapsBack(PkgLate, "1.15")
  {
  }

  lemma Release1_16()
    ensures MapsBack(PkgLate, "1.16")
  {
  }

  lemma Release1_17()
    ensures MapsBack(PkgLate, "1.17")
  {
  }

  lemma Release1_18()
    ensures MapsBack(PkgLate, "1.18")
  {
  }

  lemma LateReloaded()
    ensures forall pkg | pkg in PkgLate :: Reloaded(PkgLate, pkg)
  {
  }

  lemma NewestMapsBack()
    ensures forall v <- NewestReleases :: MapsBack(PkgNewest, v)
  {
    Release1_19(); Release1_20(); Release1_21(); Release1_22();
  }

  lemma Release1_19()
    ensures MapsBack(PkgNewest, "1.19")
  {
  }

  lemma Release1_20()
    ensures MapsBack(PkgNewest, "1.20")
  {
  }

  lemma Release1_21()
    ensures MapsBack(PkgNewest, "1.21")
  {
  }

  lemma Release1_22()
    ensures MapsBack(PkgNewest, "1.22")
  {
  }

  lemma NewestReloaded()
    ensures forall pkg | pkg in PkgNewest :: Reloaded(PkgNewest, pkg)
  {
    NewestChain();
  }

  /** The last four links of the chain. */
  lemma NewestChain()
    ensures DeadFilePackages("1.19") == ["bin23", "bin23_0"] && DeadFilePackages("1.20") == ["bin24", "bin24_0"]
    ensures DeadFilePackages("1.21") == ["bin25", "bin25_0"] && DeadFilePackages("1.22") == ["bin27", "bin27_0"]
  {
    Chain1_19();
    Chain1_20();
    Chain1_21();
    Chain1_22();
  }

  lemma Chain1_19()
    ensures DeadFilePackages("1.19") == ["bin23", "bin23_0"]
  {
  }

  lemma Chain1_20()
    ensures DeadFilePackages("1.20") == ["bin24", "bin24_0"]
  {
  }

  lemma Chain1_21()
    ensures DeadFilePackages("1.21") == ["bin25", "bin25_0"]
  {
  }

  lemma Chain1_22()
    ensures DeadFilePackages("1.22") == ["bin27", "bin27_0"]
  {
  }

  /** Every package the chain reloads for a release is one pkg_to_version gives that release. */
  lemma ChainMapsBack()
    ensures forall v <- Releases :: MapsBack(PkgToVersionCorrected, v)
  {
    PartsOfTable();
    forall v <- Releases
      ensures MapsBack(PkgToVersionCorrected, v)
    {
      if v in EarlyReleases {
        EarlyMapsBack();
        MapsBackInSubTable(PkgEarly, PkgToVersionCorrected, v);
      } else if v in MiddleReleases {
        MiddleMapsBack();
        MapsBackInSubTable(PkgMiddle, PkgToVersionCorrected, v);
      } else if v in LateReleases {
        LateMapsBack();
        MapsBackInSubTable(PkgLate, PkgToVersionCorrected, v);
      } else {
        NewestMapsBack();
        MapsBackInSubTable(PkgNewest, PkgToVersionCorrected, v);
      }
    }
  }

  /** Every package of pkg_to_version is reloaded when its release is asked for. */
  lemma TablePackagesReloaded()
    ensures forall pkg | pkg in PkgToVersionCorrected :: Reloaded(PkgToVersionCorrected, pkg)
  {
    PartsOfTable();
    EarlyReloaded();
    MiddleReloaded();
    LateReloaded();
    NewestReloaded();
  }

  /** As written, every release of the chain but 1.21 and 1.22 maps back to pkg_to_version. */
  lemma ChainMapsBackAsWritten()
    ensures forall v <- Releases | v != "1.21" && v != "1.22" :: MapsBack(PkgToVersionAsWritten, v)
  {
    PartsOfTableAsWritten();
    forall v <- Releases | v != "1.21" && v != "1.22"
      ensures MapsBack(PkgToVersionAsWritten, v)
    {
      if v in EarlyReleases {
        EarlyMapsBack();
        MapsBackInSubTable(PkgEarly, PkgToVersionAsWritten, v);
      } else if v in MiddleReleases {
        MiddleMapsBack();
        MapsBackInSubTable(PkgMiddle, PkgToVersionAsWritten, v);
      } else if v in LateReleases {
        LateMapsBack();
        MapsBackInSubTable(PkgLate, PkgToVersionAsWritten, v);
      } else {
        NewestAsWrittenMapsBack();
        MapsBackInSubTable(PkgNewestAsWritten, PkgToVersionAsWritten, v);
      }
    }
  }

  lemma NewestAsWrittenMapsBack()
    ensures MapsBack(PkgNewestAsWritten, "1.19") && MapsBack(PkgNewestAsWritten, "1.20")
  {
    Chain1_19();
    Chain1_20();
  }

  lemma NewestAsWrittenReloaded()
    ensures forall pkg | pkg in PkgNewestAsWritten && pkg !in ["bin25", "bin25_0", "bin27", "bin27_0"] ::
      Reloaded(PkgNewestAsWritten, pkg)
  {
    Chain1_19();
    Chain1_20();
  }

  /** As written, every package of pkg_to_version but those of 1.21 and 1.22 is reloaded when its release is asked for. */
  lemma TablePackagesReloadedAsWritten()
    ensures forall pkg | pkg in PkgToVersionAsWritten && pkg !in ["bin25", "bin25_0", "bin27", "bin27_0"] ::
      Reloaded(PkgToVersionAsWritten, pkg)
  {
    PartsOfTableAsWritten();
    EarlyReloaded();
    MiddleReloaded();
    LateReloaded();
    NewestAsWrittenReloaded();
  }

  /** A release the chain does not name reloads nothing. */
  lemma OtherReleasesReloadNothing(v: string)
    requires v !in Releases
    ensures DeadFilePackages(v) == []
  {
  }

  /** No release of the chain is written with a trailing space, so such a text reloads nothing. */
  lemma TrailingSpaceReloadsNothing(version: string)
    requires version != [] && version[|version| - 1] == ' '
    ensures DeadFilePackages(version) == []
  {
  }

  /** A package the release reloads whose entry names another release breaks MapsBack. */
  lemma NotMapsBackVia(table: map<string, string>, version: string, pkg: string)
    requires pkg in DeadFilePackages(version) && pkg in table && table[pkg] != version
    ensures !MapsBack(table, version)
  {
  }

  /** A table entry with a trailing space is not reloaded by its release. */
  lemma NotReloadedVia(table: map<string, string>, pkg: string)
    requires pkg in table && table[pkg] != [] && table[pkg][|table[pkg]| - 1] == ' '
    ensures !Reloaded(table, pkg)
  {
    TrailingSpaceReloadsNothing(table[pkg]);
  }

  lemma NewestAsWrittenEntry(pkg: string)
    requires pkg in PkgNewestAsWritten
    ensures pkg in PkgToVersionAsWritten && PkgToVersionAsWritten[pkg] == PkgNewestAsWritten[pkg]
  {
  }

  /** As written, release 1.21 reloads bin25, whose table entry reads "1.21 ", so neither direction holds for it. */
  lemma Release1_21AsWritten()
    ensures !MapsBack(PkgToVersionAsWritten, "1.21")
    ensures "bin25" in PkgToVersionAsWritten && !Reloaded(PkgToVersionAsWritten, "bin25")
  {
    assert PkgNewestAsWritten["bin25"] == "1.21 ";
    NewestAsWrittenEntry("bin25");
    Chain1_21();
    NotMapsBackVia(PkgToVersionAsWritten, "1.21", "bin25");
    NotReloadedVia(PkgToVersionAsWritten, "bin25");
  }

  /** The same holds of release 1.22 and bin27. */
  lemma Release1_22AsWritten()
    ensures !MapsBack(PkgToVersionAsWritten, "1.22")
    ensures "bin27" in PkgToVersionAsWritten && !Reloaded(PkgToVersionAsWritten, "bin27")
  {
    assert PkgNewestAsWritten["bin27"] == "1.22 ";
    NewestAsWrittenEntry("bin27");
    Chain1_22();
    NotMapsBackVia(PkgToVersionAsWritten, "1.22", "bin27");
    NotReloadedVia(PkgToVersionAsWritten, "bin27");
  }

  /** Release 1.15 is the one spread over two packages, and so four suffixes. */
  lemma Release1_15FourSuffixes()
    ensures DeadFilePackages("1.15") == ["bin18", "bin18_0", "bin19", "bin19_0"]
  {
  }

  /** rdb_name: the file name with everything from its last '.' removed. */
  function StripExtension(name: string): (r: string)
    ensures |r| <= |name| && r == name[..|r|]
    ensures '.' !in name ==> r == name
    ensures '.' in name ==> |r| < |name| && name[|r|] == '.' && '.' !in name[|r| + 1..]
  {
    var lastDot := LastIndexOf(name, '.');
    if lastDot != -1 then name[..lastDot] else name
  }

  /** Stripping removes exactly the last extension. */
  lemma StripExtensionOf(base: string, ext: string)
    requires '.' !in ext
    ensures StripExtension(base + "." + ext) == base
  {
    var name := base + "." + ext;
    var lastDot := LastIndexOf(name, '.');
    assert name[|base|] == '.';
    assert forall k | lastDot < k < |name| :: name[k] != '.' by {
      forall k | lastDot < k < |name|
        ensures name[k] != '.'
      {
        assert name[k] == name[lastDot + 1..][k - lastDot - 1];
      }
    }
    assert forall k | |base| < k < |name| :: name[k] != '.' by {
      forall k | |base| < k < |name|
        ensures name[k] != '.'
      {
        assert name[k] == ext[k - |base| - 1];
      }
    }
    assert lastDot == |base|;
    assert name[..|base|] == base;
  }
}
