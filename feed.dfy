/** The records the watchdogs exchange with the outside world: the updater
    feed's upgrade steps (factorio.go), the build manifest (buildinfo.go) and
    the registry's image tags (dockerhub.go). An absent JSON field decodes to
    the empty string. */
module Feed {

  /** One entry of "core-linux_headless64" in the updater feed. */
  datatype AvailableVersionsStep = AvailableVersionsStep(from: string, to: string, stable: string)

  /** One version of the build manifest: its checksum and the tags it carries. */
  datatype BuildInfoVersion = BuildInfoVersion(sha1: string, tags: seq<string>)

  /** The build manifest: version string to checksum and tags. */
  datatype BuildInfo = BuildInfo(versions: map<string, BuildInfoVersion>)

  /** One tag listed by the registry. */
  datatype ImageTag = ImageTag(layer: string, name: string)
}
