/** An optional value, for the fields and inputs the chart may lack
    (`stats.first?`, `stats.last`, the cached day map before the first update). */
module Wrappers {

  datatype Option<+T> = None | Some(value: T)

}
