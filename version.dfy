/**
 * Client versions (parser/src/version.rs): parsing the `clientVersionFromExe`
 * string "major,minor,patch,build", rendering the "major.minor.patch" path,
 * and the "at least" ordering that ignores the build number.
 */
module ClientVersion {
  import opened Wrappers
  import opened Ints
  import opened Text

  datatype Version = Version(major: u32, minor: u32, patch: u32, build: u32)

  /** Why `from_client_exe` aborts: the `assert!` on the part count, or an `unwrap` of a parse. */
  datatype VersionError = WrongPartCount(count: nat) | InvalidNumber(part: string)

  /** `Version::from_client_exe`: four comma-separated u32s, read in order. */
  function FromClientExe(s: string): (r: Result<Version, VersionError>)
    ensures r.Ok? ==> |Split(s, ',')| == 4
  {
    var parts := Split(s, ',');
    if |parts| != 4 then Err(WrongPartCount(|parts|))
    else if ParseU32(parts[0]).None? then Err(InvalidNumber(parts[0]))
    else if ParseU32(parts[1]).None? then Err(InvalidNumber(parts[1]))
    else if ParseU32(parts[2]).None? then Err(InvalidNumber(parts[2]))
    else if ParseU32(parts[3]).None? then Err(InvalidNumber(parts[3]))
    else Ok(Version(ParseU32(parts[0]).value, ParseU32(parts[1]).value,
                    ParseU32(parts[2]).value, ParseU32(parts[3]).value))
  }

  /** The string the game writes for a version: its four numbers joined by commas. */
  function ClientExeString(v: Version): string
  {
    Join([NatToString(v.major), NatToString(v.minor), NatToString(v.patch), NatToString(v.build)], ',')
  }

  /** `Version::to_path`: "major.minor.patch". */
  function ToPath(v: Version): string
  {
    Join([NatToString(v.major), NatToString(v.minor), NatToString(v.patch)], '.')
  }

  /** `Version::is_at_least`. */
  predicate IsAtLeast(v: Version, other: Version)
  {
    if v.major > other.major then true
    else if v.major < other.major then false
    else if v.minor > other.minor then true
    else if v.minor < other.minor then false
    else v.patch >= other.patch
  }

  /** Reference order: (major, minor, patch) read as one number in base 2^32. */
  function Rank(v: Version): nat
  {
    v.major * TWO_TO_THE_32 * TWO_TO_THE_32 + v.minor * TWO_TO_THE_32 + v.patch
  }

  lemma DigitsHaveNoSeparator(n: nat, sep: char)
    requires !IsDigit(sep)
    ensures Free(NatToString(n), sep)
  {
  }

  /** Parsing the comma-joined fields gives back every field, the build included, in order. */
  lemma ClientExeRoundTrip(v: Version)
    ensures FromClientExe(ClientExeString(v)) == Ok(v)
  {
    var parts := [NatToString(v.major), NatToString(v.minor), NatToString(v.patch), NatToString(v.build)];
    forall i | 0 <= i < 4 ensures Free(parts[i], ',') {
      DigitsHaveNoSeparator([v.major, v.minor, v.patch, v.build][i], ',');
    }
    SplitJoin(parts, ',');
    ParseU32OfNatToString(v.major);
    ParseU32OfNatToString(v.minor);
    ParseU32OfNatToString(v.patch);
    ParseU32OfNatToString(v.build);
  }

  /** A string that does not split into exactly four parts is rejected by the assertion. */
  lemma WrongCountRejected(s: string)
    requires |Split(s, ',')| != 4
    ensures FromClientExe(s) == Err(WrongPartCount(|Split(s, ',')|))
  {
  }

  /** The path is determined by, and determines, (major, minor, patch); the build plays no part. */
  lemma ToPathExactlyTriple(v: Version, w: Version)
    ensures ToPath(v) == ToPath(w) <==> (v.major, v.minor, v.patch) == (w.major, w.minor, w.patch)
  {
    var pv := [NatToString(v.major), NatToString(v.minor), NatToString(v.patch)];
    var pw := [NatToString(w.major), NatToString(w.minor), NatToString(w.patch)];
    forall i | 0 <= i < 3 ensures Free(pv[i], '.') && Free(pw[i], '.') {
      DigitsHaveNoSeparator([v.major, v.minor, v.patch][i], '.');
      DigitsHaveNoSeparator([w.major, w.minor, w.patch][i], '.');
    }
    if ToPath(v) == ToPath(w) {
      SplitJoin(pv, '.');
      SplitJoin(pw, '.');
      assert pv == pw;
      NatToStringInjective(v.major, w.major);
      NatToStringInjective(v.minor, w.minor);
      NatToStringInjective(v.patch, w.patch);
    }
  }

  /** `is_at_least` is the lexicographic order on (major, minor, patch). */
  lemma IsAtLeastByRank(v: Version, w: Version)
    ensures IsAtLeast(v, w) <==> Rank(v) >= Rank(w)
  {
    var K := TWO_TO_THE_32;
    assert v.minor * K + v.patch < K * K && w.minor * K + w.patch < K * K;
    if v.major != w.major {
      if v.major > w.major {
        assert v.major * K * K >= w.major * K * K + K * K;
      } else {
        assert w.major * K * K >= v.major * K * K + K * K;
      }
    } else if v.minor != w.minor {
      if v.minor > w.minor {
        assert v.minor * K >= w.minor * K + K;
      } else {
        assert w.minor * K >= v.minor * K + K;
      }
    }
  }

  lemma IsAtLeastIgnoresBuild(v: Version, w: Version, b: u32, c: u32)
    ensures IsAtLeast(v, w) == IsAtLeast(v.(build := b), w.(build := c))
  {
  }

  lemma IsAtLeastReflexive(v: Version)
    ensures IsAtLeast(v, v)
  {
  }

  lemma IsAtLeastTotal(v: Version, w: Version)
    ensures IsAtLeast(v, w) || IsAtLeast(w, v)
  {
    IsAtLeastByRank(v, w);
    IsAtLeastByRank(w, v);
  }

  lemma IsAtLeastTransitive(u: Version, v: Version, w: Version)
    requires IsAtLeast(u, v) && IsAtLeast(v, w)
    ensures IsAtLeast(u, w)
  {
    IsAtLeastByRank(u, v);
    IsAtLeastByRank(v, w);
    IsAtLeastByRank(u, w);
  }

  /** `is_at_least` in both directions relates only versions with the same (major, minor, patch). */
  lemma IsAtLeastAntisymmetric(v: Version, w: Version)
    requires IsAtLeast(v, w) && IsAtLeast(w, v)
    ensures ToPath(v) == ToPath(w)
  {
    ToPathExactlyTriple(v, w);
  }

  lemma ClientExeStringSpelled(v: Version)
    ensures ClientExeString(v) == NatToString(v.major) + "," + NatToString(v.minor) + ","
                               + NatToString(v.patch) + "," + NatToString(v.build)
  {
    var p := [NatToString(v.major), NatToString(v.minor), NatToString(v.patch), NatToString(v.build)];
    assert Join(p[3..], ',') == p[3];
    assert Join(p[2..], ',') == p[2] + [','] + p[3] by { assert p[2..][1..] == p[3..]; }
    assert Join(p[1..], ',') == p[1] + [','] + p[2] + [','] + p[3] by { assert p[1..][1..] == p[2..]; }
    assert Join(p, ',') == p[0] + [','] + p[1] + [','] + p[2] + [','] + p[3] by { assert p[1..] == p[1..]; }
  }

  lemma ParsesAsSpelled(v: Version, s: string)
    requires s == NatToString(v.major) + "," + NatToString(v.minor) + ","
                + NatToString(v.patch) + "," + NatToString(v.build)
    ensures FromClientExe(s) == Ok(v)
  {
    ClientExeRoundTrip(v);
    ClientExeStringSpelled(v);
  }

  /** The `assert_older_newer` check of the test module, for two parsed versions. */
  predicate OlderNewer(older: Version, newer: Version)
  {
    IsAtLeast(newer, older) && IsAtLeast(newer, newer) && !IsAtLeast(older, newer)
  }

  lemma Parses0_10_9_0() ensures FromClientExe("0,10,9,0") == Ok(Version(0, 10, 9, 0))
  {
    assert NatToString(0) == "0" && NatToString(9) == "9" && NatToString(10) == "10";
    ParsesAsSpelled(Version(0, 10, 9, 0), "0,10,9,0");
  }

  lemma Parses0_10_10_0() ensures FromClientExe("0,10,10,0") == Ok(Version(0, 10, 10, 0))
  {
    assert NatToString(0) == "0" && NatToString(10) == "10";
    ParsesAsSpelled(Version(0, 10, 10, 0), "0,10,10,0");
  }

  lemma Parses0_11_0_0() ensures FromClientExe("0,11,0,0") == Ok(Version(0, 11, 0, 0))
  {
    assert NatToString(0) == "0" && NatToString(11) == "11";
    ParsesAsSpelled(Version(0, 11, 0, 0), "0,11,0,0");
  }

  lemma Parses0_11_5_0() ensures FromClientExe("0,11,5,0") == Ok(Version(0, 11, 5, 0))
  {
    assert NatToString(0) == "0" && NatToString(5) == "5" && NatToString(11) == "11";
    ParsesAsSpelled(Version(0, 11, 5, 0), "0,11,5,0");
  }

  lemma Parses1_0_0_0() ensures FromClientExe("1,0,0,0") == Ok(Version(1, 0, 0, 0))
  {
    assert NatToString(0) == "0" && NatToString(1) == "1";
    ParsesAsSpelled(Version(1, 0, 0, 0), "1,0,0,0");
  }

  /** Test `different_patch`: 0,10,9,0 against 0,10,10,0. */
  lemma DifferentPatch()
    ensures FromClientExe("0,10,9,0") == Ok(Version(0, 10, 9, 0))
    ensures FromClientExe("0,10,10,0") == Ok(Version(0, 10, 10, 0))
    ensures OlderNewer(Version(0, 10, 9, 0), Version(0, 10, 10, 0))
  {
    Parses0_10_9_0();
    Parses0_10_10_0();
  }

  /** Test `different_minor`: 0,10,9,0 against 0,11,0,0. */
  lemma DifferentMinor()
    ensures FromClientExe("0,10,9,0") == Ok(Version(0, 10, 9, 0))
    ensures FromClientExe("0,11,0,0") == Ok(Version(0, 11, 0, 0))
    ensures OlderNewer(Version(0, 10, 9, 0), Version(0, 11, 0, 0))
  {
    Parses0_10_9_0();
    Parses0_11_0_0();
  }

  /** Test `different_major`: 0,11,5,0 against 1,0,0,0. */
  lemma DifferentMajor()
    ensures FromClientExe("0,11,5,0") == Ok(Version(0, 11, 5, 0))
    ensures FromClientExe("1,0,0,0") == Ok(Version(1, 0, 0, 0))
    ensures OlderNewer(Version(0, 11, 5, 0), Version(1, 0, 0, 0))
  {
    Parses0_11_5_0();
    Parses1_0_0_0();
  }
}
