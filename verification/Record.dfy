/** The promotion record from which the site and the advisories are built. */
module Record {
  import opened Basics

  datatype Asset = Asset(name: string, sha256: string, nevra: string)

  datatype Advisory = Advisory(
    kind: string,
    id: string,
    summary: string,
    severity: Option<string>,
    issued: string,
    cves: Option<seq<string>>)

  datatype Entry = Entry(
    tag: string,
    status: string,
    retainUntil: Option<string>,
    advisory: Option<Advisory>,
    assets: seq<Asset>)
}
