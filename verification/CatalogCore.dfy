/** The domain types of `catalog-core`. A `NodeId` is its string. */
module CatalogCore {
  import opened Wrappers

  type NodeId = string

  datatype Distribution = Distribution(format: string, accessService: string)

  datatype DataService = DataService(id: string, endpointUrl: string, endpointDescription: Option<string>)

  datatype Dataset = Dataset(id: string, properties: map<string, string>, distributions: seq<Distribution>)

  datatype Catalog = Catalog(
    id: string,
    originNode: NodeId,
    participantId: Option<string>,
    datasets: seq<Dataset>,
    dataServices: seq<DataService>,
    properties: map<string, string>)
}
