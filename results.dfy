/** The "no value" and "error" outcomes of the engine and the generators. */
module Results {

  /** A value, or the `null` of pathFinding.js and main.js */
  datatype Option<T> = None | Some(value: T)

  /** A value, or the exception `generateRandom` throws */
  datatype Result<T, E> = Ok(value: T) | Err(error: E)
}
