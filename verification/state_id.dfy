/** The name of a state in an animation state machine: a string newtype
    compared, hashed and cloned by value. */
module StateIds {

  datatype StateID = StateID(name: string)
}
