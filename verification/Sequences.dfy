/** The first elements of a sequence, all of it if there are not so many. */
module Sequences {
  function Take<T>(s: seq<T>, n: nat): seq<T> { if |s| <= n then s else s[..n] }
}
