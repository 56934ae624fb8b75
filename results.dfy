/** Tagged values shared by the store model and the authentication workflow. */
module Results {

  /** A value that may be absent: a missing request field, or a lookup that found nothing. */
  datatype Option<+T> = None | Some(value: T)

  /** How an awaited call settles: it returns a value, or it throws an error
      whose `message` is what a `catch` block would read. */
  datatype Outcome<+T> = Returns(value: T) | Throws(message: string)
}
