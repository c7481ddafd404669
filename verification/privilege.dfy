/** `do_root_permission`: decides whether `main` may reconfigure the
    interface. The effective user id and the exit statuses of the two `sudo`
    probes are inputs. The function returns Python's `False` or the exit
    status of `sudo -v`, and `main` proceeds when that value is falsy, so a
    falsy result means "permission obtained", whatever the name suggests. */
module Privilege {

  /** What the environment answers: `os.geteuid()`, the exit status of
      `sudo -n true` and the exit status of `sudo -v`. */
  datatype Env = Env(euid: int, sudoCachedStatus: int, sudoValidateStatus: int)

  /** The shell commands the gate runs, in order. */
  datatype Probe = SudoCached | SudoValidate

  /** The two kinds of value the gate returns. */
  datatype PyValue = PyFalse | PyInt(n: int)

  /** Python truthiness of the returned value. */
  predicate Truthy(v: PyValue) {
    v.PyInt? && v.n != 0
  }

  /** The returned value and the probes run to get it. */
  datatype GateRun = GateRun(value: PyValue, probes: seq<Probe>)

  /** Root, or a cached `sudo` credential, or a successful `sudo -v`. */
  predicate HasPermission(env: Env) {
    env.euid == 0 || env.sudoCachedStatus == 0 || env.sudoValidateStatus == 0
  }

  function DoRootPermission(env: Env): (g: GateRun)
    ensures !Truthy(g.value) <==> HasPermission(env)
    ensures env.euid == 0 ==> g == GateRun(PyFalse, [])
    ensures env.euid != 0 ==> |g.probes| >= 1 && g.probes[0] == SudoCached
    ensures SudoValidate in g.probes <==> env.euid != 0 && env.sudoCachedStatus != 0
    ensures g.probes == [] || g.probes == [SudoCached] || g.probes == [SudoCached, SudoValidate]
  {
    if env.euid != 0 then
      if env.sudoCachedStatus != 0 then
        GateRun(PyInt(env.sudoValidateStatus), [SudoCached, SudoValidate])
      else
        GateRun(PyFalse, [SudoCached])
    else
      GateRun(PyFalse, [])
  }
}
