/**
 * The project's configuration constants. Their values live in the posts
 * app's constants module, which is not part of this model; all that is
 * known of them is that they are positive, so every operation that uses one
 * takes it as a parameter of this type.
 */
module Constants {

  /** A positive integer: the page size, the length of a post's display string. */
  type Positive = n: int | n > 0 witness 1
}
