/** The HTTP request methods and their names (router/mod.rs). */
module Methods {

  /** The nine request methods; the mapping below has one arm per variant and no default. */
  datatype Method = GET | POST | PUT | DELETE | PATCH | HEAD | OPTIONS | CONNECT | TRACE

  /** `Method::as_str`: the method's own upper-case name. */
  function AsStr(m: Method): (s: string)
    ensures |s| >= 3
    ensures forall i :: 0 <= i < |s| ==> 'A' <= s[i] <= 'Z'
  {
    match m
    case GET => "GET"
    case POST => "POST"
    case PUT => "PUT"
    case DELETE => "DELETE"
    case PATCH => "PATCH"
    case HEAD => "HEAD"
    case OPTIONS => "OPTIONS"
    case CONNECT => "CONNECT"
    case TRACE => "TRACE"
  }

  /** The names are pairwise distinct, so a name identifies its method. */
  lemma AsStrInjective(m1: Method, m2: Method)
    ensures AsStr(m1) == AsStr(m2) ==> m1 == m2
  {
  }
}
