/** The outcome of a builder that Python ends with an exception: numpy's
    random_integers on an empty interval, random.randint on an empty range,
    or a modulo by zero. */
module Outcomes {

  datatype Result<T> = Success(value: T) | Failure(error: string)
}
