/** An optional value: a round either accepted or rejected (where `war.py`
    raises and kills the game), and an arrival that either starts a game or
    does not. */
module Options {

  datatype Option<T> = None | Some(value: T)
}
