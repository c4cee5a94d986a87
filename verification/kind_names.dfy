/** All kinds share one shared-memory namespace. Their prefixes differ early
    enough that segments of different kinds never collide, except RAPL and
    power, which use the same prefix on purpose. */
module KindNames {
  import opened SegmentNames
  import Cpufreq
  import Power
  import Amdgpu
  import Rapl

  /** No frequency, package-power or GPU-power segment name equals one of
      another kind, whatever the ids. */
  lemma KindsNeverCollide(a: nat, b: nat)
    ensures Cpufreq.Name(a) != Power.Name(b)
    ensures Cpufreq.Name(a) != Amdgpu.Name(b)
    ensures Power.Name(a) != Amdgpu.Name(b)
    ensures Cpufreq.Name(a) != Rapl.Name(b) && Amdgpu.Name(a) != Rapl.Name(b)
  {
    // "/cpu_stats_f..." against "/cpu_stats_p...", then "..._p_pkg_" against "..._p_amdgpu_".
    PrefixesSeparate(Cpufreq.PREFIX, Power.PREFIX, a, b, 11);
    PrefixesSeparate(Cpufreq.PREFIX, Amdgpu.PREFIX, a, b, 11);
    PrefixesSeparate(Power.PREFIX, Amdgpu.PREFIX, a, b, 13);
    PrefixesSeparate(Amdgpu.PREFIX, Rapl.PREFIX, a, b, 13);
  }
}
