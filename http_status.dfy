/** The HTTP status codes the controller and the service use. */
module HttpStatus {
  const OK := 200
  const CREATED := 201
  const ACCEPTED := 202
  const BAD_REQUEST := 400
  const UNAUTHORIZED := 401
  const NOT_FOUND := 404
  const INTERNAL_SERVER_ERROR := 500
}
