/** What sequences of any kind have in common. */
module Sequences {
  function Last<T>(s: seq<T>): T
    requires s != []
  {
    s[|s|-1]
  }
}
