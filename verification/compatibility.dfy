/**
 * UpdateInfo.IsCompatible: whether a record of the remote database may be
 * installed on this machine. The machine is a parameter: its pointer size
 * (IntPtr.Size) and its operating-system version (Environment.OSVersion).
 */
module Compatibility {
  import opened Wrappers
  import opened Text
  import opened Versions
  import opened Manifest

  /** The machine the manager runs on. */
  datatype Host = Host(pointerSize: int, osVersion: seq<nat>)

  /** The architecture name of the running process: "x64" for 8-byte
      pointers, "x86" for any other size. */
  function CurrentArchitecture(pointerSize: int): (arch: string)
    ensures arch == "x64" <==> pointerSize == 8
    ensures arch == "x86" <==> pointerSize != 8
  {
    if pointerSize == 8 then "x64" else "x86"
  }

  /** The record's architecture names the host's, ignoring case. */
  predicate ArchitectureMatches(r: Record, host: Host) {
    EqualsIgnoreCase(r.arch, CurrentArchitecture(host.pointerSize))
  }

  /** The architecture must match; then the host version must be at least
      the minimum OS version, unless that does not parse as a version, in
      which case the exception is swallowed and the answer is yes. */
  predicate IsCompatible(r: Record, host: Host)
    ensures IsCompatible(r, host) ==> ArchitectureMatches(r, host)
  {
    if !ArchitectureMatches(r, host) then false
    else
      match ParseVersion(r.minOS)
      case None => true
      case Some(required) => CompareTo(host.osVersion, required) >= 0
  }

  /** The rule in terms of the reference version order: compatible exactly
      when the architecture matches and the minimum version either does not
      parse or is not above the host's. */
  lemma CompatibleRule(r: Record, host: Host)
    ensures IsCompatible(r, host) <==>
      && ArchitectureMatches(r, host)
      && (ParseVersion(r.minOS).None? || AtLeast(host.osVersion, ParseVersion(r.minOS).value))
  {
    if ParseVersion(r.minOS).Some? {
      CompareToOrder(host.osVersion, ParseVersion(r.minOS).value);
    }
  }

  /** A host that satisfies a record keeps satisfying it when only its OS
      version grows. */
  lemma CompatibleOnNewerHost(r: Record, host: Host, newer: seq<nat>)
    requires IsCompatible(r, host)
    requires CompareTo(newer, host.osVersion) >= 0
    ensures IsCompatible(r, host.(osVersion := newer))
  {
    if ParseVersion(r.minOS).Some? {
      CompareToTransitive(newer, host.osVersion, ParseVersion(r.minOS).value);
    }
  }

  /** The architecture is compared without regard to case. */
  lemma ArchitectureCaseIgnored(r: Record, host: Host, arch: string)
    requires ToLower(arch) == ToLower(r.arch)
    ensures IsCompatible(r.(arch := arch), host) == IsCompatible(r, host)
  {
  }

  /** "x64" and "x86" differ in a character ToLower leaves alone, so neither
      architecture accepts the other's records. */
  lemma ArchitecturesDistinct()
    ensures !EqualsIgnoreCase("x64", "x86") && !EqualsIgnoreCase("x86", "x64")
    ensures EqualsIgnoreCase("X64", "x64") && EqualsIgnoreCase("X86", "x86")
  {
    assert ToLower("x64")[1] == '6' && ToLower("x86")[1] == '8';
    assert ToLower("X64") == "x64" && ToLower("x64") == "x64";
    assert ToLower("X86") == "x86" && ToLower("x86") == "x86";
  }

  lemma DefaultRecordOn64Bit(version: string, link: string, host: Host)
    requires host.pointerSize == 8
    ensures !IsCompatible(NewUpdateInfo(version, link), host)
  {
    ArchitecturesDistinct();
    assert CurrentArchitecture(host.pointerSize) == "x64";
  }

  lemma MinimumZeroZero()
    ensures ParseVersion("0.0") == Some([0, 0])
  {
    var z := "0.0";
    assert z[0] == '0' && z[2] == '0' && z[1] == '.';
    ParseTwoDigitVersion(z);
  }

  lemma X86Matches(host: Host)
    requires host.pointerSize != 8
    ensures EqualsIgnoreCase("x86", CurrentArchitecture(host.pointerSize))
  {
  }

  lemma DefaultRecordOn32Bit(version: string, link: string, host: Host)
    requires host.pointerSize != 8 && |host.osVersion| >= 2
    ensures IsCompatible(NewUpdateInfo(version, link), host)
  {
    X86Matches(host);
    MinimumZeroZero();
    AtLeastZeroZero(host.osVersion);
    CompatibleWhenAtLeast(NewUpdateInfo(version, link), host, [0, 0]);
  }

  /** A record the constructor left at its defaults (minimum OS "0.0",
      architecture "x86") runs on every 32-bit host and on no 64-bit one. */
  lemma DefaultRecordCompatibility(version: string, link: string, host: Host)
    requires |host.osVersion| >= 2
    ensures IsCompatible(NewUpdateInfo(version, link), host) <==> host.pointerSize != 8
  {
    if host.pointerSize == 8 {
      DefaultRecordOn64Bit(version, link, host);
    } else {
      DefaultRecordOn32Bit(version, link, host);
    }
  }

  /** The passing case of the check, for a minimum that parses. */
  lemma CompatibleWhenAtLeast(r: Record, host: Host, required: seq<nat>)
    requires ArchitectureMatches(r, host)
    requires ParseVersion(r.minOS) == Some(required)
    requires CompareTo(host.osVersion, required) >= 0
    ensures IsCompatible(r, host)
  {
  }

  /** The failing case of the check, for a minimum that parses. */
  lemma IncompatibleWhenBelow(r: Record, host: Host, required: seq<nat>)
    requires ParseVersion(r.minOS) == Some(required)
    requires CompareTo(host.osVersion, required) < 0
    ensures !IsCompatible(r, host)
  {
  }

  /** A minimum version that is not a version (here: one component) does
      not block an installation whose architecture matches. */
  lemma UnparsableMinimumFailsOpen(r: Record, host: Host)
    requires ArchitectureMatches(r, host)
    requires '.' !in r.minOS
    ensures IsCompatible(r, host)
  {
    SplitWithoutSeparator(r.minOS, '.');
  }

  lemma MinimumSixZero()
    ensures ParseVersion("6.0") == Some([6, 0])
  {
    ParseTwoDigitVersion("6.0");
  }

  /** A 64-bit record that needs OS 6.0 installs on a 64-bit 6.1 host ... */
  lemma AcceptedOnNewerHost(r: Record)
    requires r.arch == "x64" && r.minOS == "6.0"
    ensures IsCompatible(r, Host(8, [6, 1, 7601, 0]))
  {
    var host := Host(8, [6, 1, 7601, 0]);
    assert CurrentArchitecture(8) == "x64";
    assert ArchitectureMatches(r, host);
    MinimumSixZero();
    CompareExamples();
    CompatibleWhenAtLeast(r, host, [6, 0]);
  }

  /** ... but not on a 32-bit host of the same version ... */
  lemma RejectedOnOtherArchitecture(r: Record)
    requires r.arch == "x64" && r.minOS == "6.0"
    ensures !IsCompatible(r, Host(4, [6, 1, 7601, 0]))
  {
    ArchitecturesDistinct();
  }

  /** ... nor on a 64-bit 5.1 host. */
  lemma RejectedOnOlderHost(r: Record)
    requires r.arch == "x64" && r.minOS == "6.0"
    ensures !IsCompatible(r, Host(8, [5, 1, 2600, 0]))
  {
    MinimumSixZero();
    CompareExamples();
    IncompatibleWhenBelow(r, Host(8, [5, 1, 2600, 0]), [6, 0]);
  }
}
