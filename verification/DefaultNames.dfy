/** The names of the repositories that initialisation enables, resolveReposNames of
    src/services/repos.cpp, and the ids in the configuration files that come with the program. */
module DefaultNames {
  import opened Decimals

  datatype Distro = RHEL | OL | Rocky | AlmaLinux

  /** The names for one distribution, with its major version put in. */
  function DistroNames(distro: Distro, major: nat): seq<string> {
    match distro
    case AlmaLinux => ["AlmaLinuxBaseOS", "\"AlmaLinux " + Dec(major) + " - CRB\""]
    case Rocky => ["appstream", "baseos", "crb"]
    case RHEL => ["rhel-" + Dec(major) + "-baseos", "rhel-" + Dec(major) + "-codeready-builder"]
    case OL => ["OLBaseOS", "ol" + Dec(major) + "_codeready_builder"]
  }

  const SHARED_NAMES := ["epel", "OpenHPC", "OpenHPC-Updates", "rpmfusion", "elrepo", "beegfs"]

  function ReposNames(distro: Distro, major: nat): seq<string> {
    DistroNames(distro, major) + SHARED_NAMES
  }

  method ResolveReposNames(distro: Distro, major: nat) returns (output: seq<string>)
    ensures output == ReposNames(distro, major)
  {
    output := [];
    match distro {
      case AlmaLinux =>
        output := output + ["AlmaLinuxBaseOS"];
        output := output + ["\"AlmaLinux " + Dec(major) + " - CRB\""];
      case Rocky =>
        output := output + ["appstream"];
        output := output + ["baseos"];
        output := output + ["crb"];
      case RHEL =>
        output := output + ["rhel-" + Dec(major) + "-baseos"];
        output := output + ["rhel-" + Dec(major) + "-codeready-builder"];
      case OL =>
        output := output + ["OLBaseOS"];
        output := output + ["ol" + Dec(major) + "_codeready_builder"];
    }
    output := output + ["epel"];
    output := output + ["OpenHPC"];
    output := output + ["OpenHPC-Updates"];
    output := output + ["rpmfusion"];
    output := output + ["elrepo"];
    output := output + ["beegfs"];
  }

  /** On version 9 these are the names, in this order. */
  lemma NamesOnNine()
    ensures ReposNames(RHEL, 9) == ["rhel-9-baseos", "rhel-9-codeready-builder", "epel", "OpenHPC", "OpenHPC-Updates", "rpmfusion",
                                    "elrepo", "beegfs"]
    ensures ReposNames(AlmaLinux, 9) == ["AlmaLinuxBaseOS", "\"AlmaLinux 9 - CRB\"", "epel", "OpenHPC", "OpenHPC-Updates", "rpmfusion",
                                         "elrepo", "beegfs"]
    ensures ReposNames(Rocky, 9) == ["appstream", "baseos", "crb", "epel", "OpenHPC", "OpenHPC-Updates", "rpmfusion", "elrepo", "beegfs"]
    ensures ReposNames(OL, 9) == ["OLBaseOS", "ol9_codeready_builder", "epel", "OpenHPC", "OpenHPC-Updates", "rpmfusion", "elrepo",
                                  "beegfs"]
  {
    assert Dec(9) == "9";
    assert "rhel-" + "9" + "-baseos" == "rhel-9-baseos" && "rhel-" + "9" + "-codeready-builder" == "rhel-9-codeready-builder";
    assert "\"AlmaLinux " + "9" + " - CRB\"" == "\"AlmaLinux 9 - CRB\"" && "ol" + "9" + "_codeready_builder" == "ol9_codeready_builder";
  }

  /** The group names of repos/repos.conf, which are ids as they stand. */
  const SHARED_IDS := ["beegfs", "grafana", "influxdata", "oneAPI", "zabbix", "elrepo", "rpmfusion", "epel-debuginfo",
                       "epel-source", "epel", "OpenHPC", "OpenHPC-Updates", "nvhpc", "xcat-core", "xcat-dep", "doca"]

  /** The group names of the distribution's own file, with their placeholders: nothing fills them in. */
  function DistroIds(distro: Distro): seq<string> {
    match distro
    case AlmaLinux => ["AlmaLinux {releasever} - CRB", "AlmaLinuxBaseOS"]
    case Rocky => ["baseos", "appstream", "crb", "extras", "plus", "devel", "highavailability", "resilientstorage", "nfv", "rt"]
    case RHEL => ["rhel-{releasever}-codeready-builder", "rhel-{releasever}-baseos"]
    case OL => ["ol{releasever}_codeready_builder", "OLBaseOS"]
  }

  predicate Shipped(distro: Distro, id: string) {
    id in DistroIds(distro) || id in SHARED_IDS
  }

  /** A character at a place where no shipped id has a digit, or begins with a quote. */
  lemma NoDigit(id: string)
    requires id in SHARED_IDS
    ensures id != "" && id[0] != '"'
    ensures |id| > 2 ==> !IsDigit(id[2])
    ensures |id| > 5 ==> !IsDigit(id[5])
  {
  }

  lemma NoDistroDigit(distro: Distro, id: string)
    requires id in DistroIds(distro) && distro != Rocky
    ensures id != "" && id[0] != '"'
    ensures |id| > 2 ==> !IsDigit(id[2])
    ensures |id| > 5 ==> !IsDigit(id[5])
  {
  }

  /** A name that the configuration of the distribution does not have. */
  function Unmatched(distro: Distro, major: nat): string
    requires distro != Rocky
  {
    match distro
    case AlmaLinux => "\"AlmaLinux " + Dec(major) + " - CRB\""
    case RHEL => "rhel-" + Dec(major) + "-baseos"
    case OL => "ol" + Dec(major) + "_codeready_builder"
  }

  lemma UnmatchedIsNotShipped(distro: Distro, major: nat)
    requires distro != Rocky
    ensures Unmatched(distro, major) in ReposNames(distro, major) && !Shipped(distro, Unmatched(distro, major))
  {
    var name := Unmatched(distro, major);
    match distro {
      case AlmaLinux => assert name == DistroNames(distro, major)[1] && name[0] == '"';
      case RHEL => assert name == DistroNames(distro, major)[0] && name[5] == Dec(major)[0] && Dec(major)[0] in Dec(major);
      case OL => assert name == DistroNames(distro, major)[1] && name[2] == Dec(major)[0] && Dec(major)[0] in Dec(major);
    }
    assert name in DistroNames(distro, major);
    if name in SHARED_IDS { NoDigit(name); }
    if name in DistroIds(distro) { NoDistroDigit(distro, name); }
  }

  /** All names to enable are ids of the configuration that comes with the program exactly on Rocky
      Linux, whatever the version. */
  lemma NamesAreShippedIff(distro: Distro, major: nat)
    ensures (forall name | name in ReposNames(distro, major) :: Shipped(distro, name)) <==> distro == Rocky
  {
    if distro == Rocky {
      assert forall name | name in DistroNames(distro, major) :: name in DistroIds(distro);
      assert forall name | name in SHARED_NAMES :: name in SHARED_IDS;
    } else {
      UnmatchedIsNotShipped(distro, major);
    }
  }
}
