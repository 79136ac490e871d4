/** The optional value used throughout the model: `None` stands for the
    null pointers and null results of the trie. */
module Options {

  datatype Option<+T> = None | Some(value: T)

}
