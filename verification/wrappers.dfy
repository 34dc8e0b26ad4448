/** Option for the nullable references of the store, and the reply of an external collaborator. */
module Wrappers {

  /** A nullable value: `None` stands for JavaScript's `null`. */
  datatype Option<+T> = None | Some(value: T)

  /** What an external collaborator (the hosted language model) answered: a payload, or a failure
      (a network error, a thrown exception, a reply that does not parse). */
  datatype Reply<+T> = Success(payload: T) | Failure
}
