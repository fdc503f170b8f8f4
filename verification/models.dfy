/** The entities the token code reads and writes. */
module Models {

  /** An application user as far as token issuing reads it: the identity
      provider's stable id, the e-mail and the display name. */
  datatype User = User(id: string, email: string, name: string)

  /** One row of the refresh-token table.
      `jwtTokenId` is the family id: every record rotated out of one login
      shares it, and it equals the `jti` claim of the access token issued
      beside the record. `refreshJwtToken` is the opaque value handed to the
      client. `expireAt` is an absolute instant on the model's integer clock. */
  datatype RefreshToken = RefreshToken(
    id: int,
    userId: string,
    jwtTokenId: string,
    refreshJwtToken: string,
    isValid: bool,
    expireAt: int)
}
