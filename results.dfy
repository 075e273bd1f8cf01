/** The error path of the source's `throw std::runtime_error(...)`. */
module Results {

  datatype Result<+T> = Ok(value: T) | Err(error: string)

}
