/** The request method. The verb set and its textual conversion live in
    src/http/method.rs, which is not part of this model: the request-line parser
    takes the conversion as a parameter, so nothing proved here depends on which
    verbs exist or how their names are matched. */
module HttpMethod {
  import opened Wrappers

  /** The usual HTTP/1.1 verbs, listed only to give `Method` values. */
  datatype Method = GET | DELETE | POST | PUT | HEAD | CONNECT | OPTIONS | TRACE | PATCH

  /** The payload-free error of an unrecognised method name. */
  datatype MethodError = MethodError

  /** The signature of `Method`'s `FromStr` conversion. */
  type MethodParser = seq<char> -> Result<Method, MethodError>
}
