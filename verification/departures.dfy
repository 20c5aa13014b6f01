/**
 * Where a line of the source departs from what the rest of it needs, both forms are modelled and
 * told apart by this.
 */
module Departures {
  datatype Text = AsWritten | AsMeant
}
