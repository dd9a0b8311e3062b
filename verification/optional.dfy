/**
 * A value that may be absent, shared by every other module.
 */
module Optional {

  /** A value that may be absent: a JavaScript `undefined`/`null`, a SQL NULL,
      or a lookup that found nothing. */
  datatype Option<+T> = None | Some(value: T)
}
