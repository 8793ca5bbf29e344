/** The "absent" signal that replaces the default-constructed sentinel
    and the null pointer of the C++ ordered map. */
module Options {

  datatype Option<T> = None | Some(value: T)

}
