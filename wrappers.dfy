/** Small failure-carrying datatypes shared by the other modules. */
module Wrappers {

  /** A value that may be absent: a metadata row that does not exist, a
      request field that was not sent, a post that could not be loaded. */
  datatype Option<+T> = None | Some(value: T)

  /** The two shapes of an AJAX answer: `wp_send_json_success( $data )` and
      `wp_send_json_error( $message )`. Sending either ends the request. */
  datatype Reply<+T> = Success(data: T) | Error(message: string)
}
