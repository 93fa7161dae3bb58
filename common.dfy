/** Types shared by the modules of the transcriber model. */
module Common {

  /** Python's `Optional[T]`: `None` or a value. */
  datatype Option<+T> = None | Some(value: T)

  /** A value, or the message of the exception Python would raise instead. */
  datatype Result<+T> = Ok(value: T) | Err(msg: string)

  /** The four notification sounds of `AudioNotifier.SOUNDS`; playing one is
      recorded as an event, the sound file itself is not modelled. */
  datatype Sound = Start | Stop | Success | Error
}
