/** The result codes and the optional results that the components share. */
module Results {

  datatype HResult = S_OK | S_FALSE | E_UNEXPECTED | E_INVALIDARG | E_FAIL | E_NOINTERFACE

  datatype Option<T> = None | Some(value: T)

  /** Undefined is where the source reads through a pointer that leads nowhere. */
  datatype Behaviour<T> = Defined(value: T) | Undefined
}
