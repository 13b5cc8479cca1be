/**
 What the directory worker's tables share: the status of a listed source and the official catalog.
 */
module SourceDirectory {

  datatype SourceStatus = Quarantined | Listed | Attested | Rejected

  type Sources = map<string, SourceStatus>

  const OFFICIAL_CATALOG_URL := "https://apps.bridgething.com/catalog.json"
}
