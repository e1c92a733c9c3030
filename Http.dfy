/** The JSON responses the route handlers return. */
module Http {

  /** `NextResponse.json(value)` (status 200) or `NextResponse.json({ error: message }, { status })`. */
  datatype Response<+T> = Ok(value: T) | Error(status: int, message: string)

  const UnauthorizedMessage: string := "Unauthorized"
}
