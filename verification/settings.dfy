/** `PrEvalSettingsManager`: the platform hook the resolver consults in
    Policy 1. */
module Settings {
  import opened Environment

  /** The default `FilterPackagesToTest`: no filtering, every potential
      package is returned. */
  function FilterPackagesToTest(changedFiles: seq<string>, potentialPackages: seq<PackageId>): seq<PackageId>
  {
    potentialPackages
  }
}
