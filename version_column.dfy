/**
 * The version column of the file list (MainWindow::RdbEntryToGui in
 * mainwindow.cpp): the package a file comes from, with its game release when
 * pkg_to_version knows the package, or "External (...)" for a file outside
 * every package.
 */
module VersionColumn {
  import opened QtString

  // pkg_to_version is one map literal; it is written here in four parts, whose keys are disjoint,
  // so that each part can be reasoned about on its own.

  /** The packages of releases 1.01 to 1.06. */
  const PkgEarly: map<string, string> :=
    map[
      "bin" := "1.01",
      "bin_0" := "1.01",
      "bin2" := "1.02",
      "bin2_0" := "1.02",
      "bin3" := "1.03",
      "bin3_0" := "1.03",
      "bin4" := "1.03b",
      "bin4_0" := "1.03b",
      "bin6" := "1.04",
      "bin6_0" := "1.04",
      "bin7" := "1.04a",
      "bin7_0" := "1.04a",
      "bin8" := "1.05",
      "bin8_0" := "1.05",
      "bin9" := "1.06",
      "bin9_0" := "1.06"
    ]

  /** The packages of releases 1.08 to 1.14. */
  const PkgMiddle: map<string, string> :=
    map[
      "bin11" := "1.08",
      "bin11_0" := "1.08",
      "bin12" := "1.09",
      "bin12_0" := "1.09",
      "bin13" := "1.10",
      "bin13_0" := "1.10",
      "bin14" := "1.11",
      "bin14_0" := "1.11",
      "bin15" := "1.12",
      "bin15_0" := "1.12",
      "bin16" := "1.13",
      "bin16_0" := "1.13",
      "bin17" := "1.14",
      "bin17_0" := "1.14"
    ]

  /** The packages of releases 1.15 to 1.18. */
  const PkgLate: map<string, string> :=
    map[
      "bin18" := "1.15",
      "bin18_0" := "1.15",
      "bin19" := "1.15",
      "bin19_0" := "1.15",
      "bin20" := "1.16",
      "bin20_0" := "1.16",
      "bin21" := "1.17",
      "bin21_0" := "1.17",
      "bin22" := "1.18",
      "bin22_0" := "1.18"
    ]

  /** The packages of releases 1.19 to 1.22, exactly as written: the last two releases carry a trailing space. */
  const PkgNewestAsWritten: map<string, string> :=
    map[
      "bin23" := "1.19",
      "bin23_0" := "1.19",
      "bin24" := "1.20",
      "bin24_0" := "1.20",
      "bin25" := "1.21 ",
      "bin25_0" := "1.21 ",
      "bin27" := "1.22 ",
      "bin27_0" := "1.22 "
    ]

  /** The same packages with the trailing spaces of "1.21 " and "1.22 " removed. */
  const PkgNewest: map<string, string> :=
    map[
      "bin23" := "1.19",
      "bin23_0" := "1.19",
      "bin24" := "1.20",
      "bin24_0" := "1.20",
      "bin25" := "1.21",
      "bin25_0" := "1.21",
      "bin27" := "1.22",
      "bin27_0" := "1.22"
    ]

  /** pkg_to_version as the source writes it. */
  const PkgToVersionAsWritten: map<string, string> := PkgEarly + PkgMiddle + PkgLate + PkgNewestAsWritten

  /** pkg_to_version with the two trailing spaces removed, as the release chain of LoadRdb evidently expects it. */
  const PkgToVersionCorrected: map<string, string> := PkgEarly + PkgMiddle + PkgLate + PkgNewest

  /** A package name as the table writes them: it begins with 'b' and holds no '/'. */
  predicate PlainName(pkg: string) {
    pkg != [] && pkg[0] == 'b' && '/' !in pkg
  }

  lemma EarlyNamesPlain()
    ensures forall pkg | pkg in PkgEarly :: PlainName(pkg)
  {
  }

  lemma MiddleNamesPlain()
    ensures forall pkg | pkg in PkgMiddle :: PlainName(pkg)
  {
  }

  lemma LateNamesPlain()
    ensures forall pkg | pkg in PkgLate :: PlainName(pkg)
  {
  }

  lemma NewestNamesPlain()
    ensures forall pkg | pkg in PkgNewest :: PlainName(pkg)
    ensures forall pkg | pkg in PkgNewestAsWritten :: PlainName(pkg)
  {
  }

  /** Every package name of pkg_to_version, as written and corrected, is plain; in particular none is empty. */
  lemma TableNamesPlain()
    ensures forall pkg | pkg in PkgToVersionAsWritten :: PlainName(pkg)
    ensures forall pkg | pkg in PkgToVersionCorrected :: PlainName(pkg)
    ensures [] !in PkgToVersionAsWritten && [] !in PkgToVersionCorrected
  {
    EarlyNamesPlain();
    MiddleNamesPlain();
    LateNamesPlain();
    NewestNamesPlain();
    assert !PlainName([]);
  }

  /** What RdbFile::GetExternalPath and QFileInfo say about the file outside the packages. */
  datatype ExternalFile =
    | Missing                  // no external path, or nothing exists there
    | Modified(date: string)   // its last modification date, as QDate::toString("yyyy/MMM/dd") writes it

  /** The version text for an entry whose bin_file is `binFile`. */
  function VersionText(binFile: string, table: map<string, string>, ext: ExternalFile): (r: string)
    ensures r != []
    ensures Mid(binFile, 1) != [] ==> |Mid(binFile, 1)| <= |r| && r[..|Mid(binFile, 1)|] == Mid(binFile, 1)
  {
    var pkg := Mid(binFile, 1);
    var version := if pkg in table then pkg + " / " + table[pkg] else pkg;
    if version != [] then version
    else match ext
      case Modified(date) => "External (" + date + ")"
      case Missing => "External (NE)"
  }

  /** A package in the table shows as the package name, " / " and the release. */
  lemma PackagedText(binFile: string, table: map<string, string>, ext: ExternalFile)
    requires Mid(binFile, 1) in table
    ensures VersionText(binFile, table, ext) == Mid(binFile, 1) + " / " + table[Mid(binFile, 1)]
  {
  }

  /** Where the release starts: the first " / " is the one after the package name. */
  lemma {:induction false} SeparatorAfterPackage(pkg: string, release: string)
    requires '/' !in pkg
    ensures IndexOfStr(pkg + " / " + release, " / ") == |pkg|
  {
    var s := pkg + " / " + release;
    assert OccursAt(s, " / ", |pkg|) by {
      assert s[|pkg|..|pkg| + 3] == " / ";
    }
    forall i: nat | i < |pkg|
      ensures !OccursAt(s, " / ", i)
    {
      assert s[i + 1] != '/' by {
        if i + 1 < |pkg| {
          assert s[i + 1] == pkg[i + 1];
        }
      }
      if i + 3 <= |s| {
        assert s[i..i + 3][1] == s[i + 1];
      }
    }
  }

  /** An entry outside every package shows "External (" and the date, or "NE" when there is no such file. */
  lemma ExternalText(binFile: string, table: map<string, string>, ext: ExternalFile)
    requires Mid(binFile, 1) == [] && [] !in table
    ensures StartsWith(VersionText(binFile, table, ext), "External (")
    ensures Chop(Mid(VersionText(binFile, table, ext), 10)) == (if ext.Modified? then ext.date else "NE")
  {
    var v := VersionText(binFile, table, ext);
    if ext.Modified? {
      assert v == "External (" + ext.date + ")";
      assert Mid(v, 10) == ext.date + ")";
    } else {
      assert v == "External (NE)";
    }
  }

  /** Only an entry without a package is shown as external, when no package name itself begins with 'E'. */
  lemma ExternalOnlyWithoutPackage(binFile: string, table: map<string, string>, ext: ExternalFile)
    requires Mid(binFile, 1) != [] && Mid(binFile, 1)[0] != 'E'
    ensures VersionText(binFile, table, ext)[0] == Mid(binFile, 1)[0]
    ensures !StartsWith(VersionText(binFile, table, ext), "External (")
  {
  }
}
