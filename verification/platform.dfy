/**
 * Backend selection on Linux: which virtual-machine factory the configured
 * driver setting selects, which driver names are supported, and which image
 * remotes each driver can launch from.
 */
module Platform {
  import opened Wrappers
  import opened Text

  datatype Driver = Qemu | Libvirt | Lxd

  /** The factory the daemon builds: its backend kind and the data directory it works in. */
  datatype VirtualMachineFactory = VirtualMachineFactory(driver: Driver, dataDir: string)

  datatype BackendError = UnsupportedDriver(driver: string)

  /** The setting value that names each driver. */
  function DriverName(d: Driver): string {
    match d
    case Qemu => "qemu"
    case Libvirt => "libvirt"
    case Lxd => "lxd"
  }

  /** The driver a setting value names, matched case-insensitively. */
  function DriverNamed(setting: string): (r: Option<Driver>)
    ensures r.Some? ==> DriverName(r.value) == Lower(setting)
  {
    var s := Lower(setting);
    if s == "qemu" then Some(Qemu)
    else if s == "libvirt" then Some(Libvirt)
    else if s == "lxd" then Some(Lxd)
    else None
  }

  /** Whether a driver name is one this platform has a backend for. */
  function IsBackendSupported(driver: string): (r: bool)
    ensures r <==> exists d: Driver :: DriverName(d) == Lower(driver)
  {
    var named := DriverNamed(driver);
    assert !named.Some? ==> forall d: Driver :: DriverName(d) != Lower(driver);
    named.Some?
  }

  /** The driver in force: the one the setting names, qemu when the setting is empty. */
  function EffectiveDriver(setting: string): Option<Driver> {
    if setting == "" then Some(Qemu) else DriverNamed(setting)
  }

  /**
   * The factory for the configured driver. The driver environment variable is
   * read but has no say: only the setting selects the backend.
   */
  function VmBackend(driverSetting: string, driverEnvironment: string, dataDir: string)
    : (r: Result<VirtualMachineFactory, BackendError>)
    ensures r.Success? <==> driverSetting == "" || IsBackendSupported(driverSetting)
    ensures r.Success? ==> r.value.dataDir == dataDir
    ensures driverSetting == "" ==> r == Success(VirtualMachineFactory(Qemu, dataDir))
    ensures r.Success? && driverSetting != "" ==> DriverName(r.value.driver) == Lower(driverSetting)
    ensures r.Failure? ==> r.error == UnsupportedDriver(driverSetting)
  {
    match EffectiveDriver(driverSetting)
    case Some(d) => Success(VirtualMachineFactory(d, dataDir))
    case None => Failure(UnsupportedDriver(driverSetting))
  }

  /** Each driver's own name selects a factory of that driver, whatever the environment says. */
  lemma DriverSelectsItsFactory(d: Driver, driverEnvironment: string, dataDir: string)
    ensures IsBackendSupported(DriverName(d))
    ensures VmBackend(DriverName(d), driverEnvironment, dataDir) == Success(VirtualMachineFactory(d, dataDir))
  {
    match d
    case Qemu =>
      assert Lower("qemu") == "qemu";
    case Libvirt =>
      assert Lower("libvirt") == "libvirt";
    case Lxd =>
      assert Lower("lxd") == "lxd";
  }

  /** "hyperkit", "hyper-v" and "other" have no backend here, and selecting them fails. */
  lemma UnsupportedDrivers(driverEnvironment: string, dataDir: string)
    ensures !IsBackendSupported("hyperkit") && VmBackend("hyperkit", driverEnvironment, dataDir).Failure?
    ensures !IsBackendSupported("hyper-v") && VmBackend("hyper-v", driverEnvironment, dataDir).Failure?
    ensures !IsBackendSupported("other") && VmBackend("other", driverEnvironment, dataDir).Failure?
  {
    assert Lower("hyperkit")[0] == 'h';
    assert Lower("hyper-v")[0] == 'h';
    assert Lower("other")[0] == 'o';
  }

  /** Whether images from a remote can be launched under the configured driver. */
  function IsRemoteSupported(driverSetting: string, remote: string): (r: bool)
    ensures !r <==> remote == "snapcraft" && Lower(driverSetting) == "lxd"
  {
    !(EffectiveDriver(driverSetting) == Some(Lxd) && remote == "snapcraft")
  }

  /** Under the default driver every remote is supported; under lxd all but "snapcraft". */
  lemma RemoteSupportTable(remote: string)
    ensures IsRemoteSupported("", remote)
    ensures IsRemoteSupported("lxd", remote) <==> remote != "snapcraft"
  {
    assert Lower("lxd") == "lxd";
  }
}
