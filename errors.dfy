/** The Python exceptions the searches can raise, as error values. */
module Errors {

  datatype Error =
    | IndexError  // popping an empty `deque` or heap, or `waypoints[0]` of no waypoints
    | ValueError  // `min` of an empty list
    | TypeError   // calling something that is not a function
}
