/** What the components ask of the storage and database services, and what those
    services answer. Every answer is an input of the model. */
module Backend {

  /** One call into a service, recorded in the order the code makes it. */
  datatype Request =
    | ListBuckets
    | CreateBucket(bucket: string)
    | StoreObject(bucket: string, path: string)
    | InsertPhoto(imageUrl: string, shortId: string)
    | SelectPhoto(shortId: string)
    | SelectTooltips(photoId: string)
    | InsertTooltip(photoId: string, x: real, y: real, text: string)
    | DeleteTooltip(id: string)

  /** The `{ data, error }` answer of a query: the returned row, or an error. */
  datatype Reply<T> = Ok(value: T) | Failed

  /** A value that may be `null` or `undefined`. */
  datatype Option<T> = None | Some(value: T)
}
