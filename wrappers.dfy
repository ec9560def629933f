/** Option, used for the values the dashboard treats as possibly absent
    (`null`, `undefined`, `NaN` or a date that does not parse). */
module Wrappers {

  datatype Option<+T> = None | Some(value: T)
}
