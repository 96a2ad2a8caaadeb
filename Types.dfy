/** The store record shared by the parser, the clustering action and the map view. */
module Types {
  import opened Wrappers

  /** The four store types a record can carry; the parser produces only three of them. */
  datatype StoreType = Supermarket | Express | DarkStore | Default

  /**
    One store. Coordinates are the numbers `parseFloat` produced (never NaN once
    a record exists); `clusterId` is absent until the record has been placed in
    a cluster. The TypeScript field `type` is called `storeType` here.
   */
  datatype Store = Store(
    storeId: string,
    name: string,
    storeType: StoreType,
    latitude: real,
    longitude: real,
    clusterId: Option<nat>,
    workingHours: string)
}
