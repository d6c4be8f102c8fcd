/** deps.py: the lazily created, process-wide validator. The module-level
    `_validator` is the one field of `ValidatorCache`; `get_token_validator`
    fills it on the first call that finds a non-empty secret and returns the
    stored instance from then on. */
module Deps {
  import opened Wrappers
  import opened Token

  const SecretRequired: string := "EDGE_SIGNING_SECRET environment variable is required"

  /** Python's truthiness test `not signing_secret` for the value of `os.getenv`. */
  predicate SecretMissing(envSecret: Option<string>) {
    envSecret.None? || envSecret.value == ""
  }

  class ValidatorCache {
    /** `_validator`: `None` until a validator has been built. */
    var validator: Option<TokenValidator>

    /** A stored validator always holds a non-empty key. */
    ghost predicate Valid()
      reads this
    {
      validator.Some? ==> |validator.value.signingSecret| > 0
    }

    /** Module import: `_validator = None`. */
    constructor ()
      ensures Valid() && validator == None
    {
      validator := None;
    }

    /** `get_token_validator`. `envSecret` is the value `os.getenv('EDGE_SIGNING_SECRET')`
        would return; it is consulted only while the cache is empty. A missing or
        empty secret is the `RuntimeError`, and leaves the cache empty. */
    method GetTokenValidator(envSecret: Option<string>) returns (r: Result<TokenValidator, string>)
      requires Valid()
      modifies this
      ensures Valid()
      ensures old(validator).Some? ==> r == Success(old(validator).value) && validator == old(validator)
      ensures old(validator).None? && SecretMissing(envSecret) ==>
        r == Failure(SecretRequired) && validator == None
      ensures old(validator).None? && !SecretMissing(envSecret) ==>
        r == Success(NewTokenValidator(envSecret.value)) && validator == Some(r.value)
      ensures r.Success? ==> validator == Some(r.value)
    {
      if validator.None? {
        if SecretMissing(envSecret) {
          return Failure(SecretRequired);
        }
        validator := Some(NewTokenValidator(envSecret.value));
      }
      r := Success(validator.value);
    }
  }

  /** Once a call has succeeded, later calls return that same validator whatever the
      environment then says, including an unset or empty secret. */
  method RepeatedCalls(first: Option<string>, later: Option<string>)
    returns (r1: Result<TokenValidator, string>, r2: Result<TokenValidator, string>)
    ensures !SecretMissing(first) ==> r1 == r2 == Success(NewTokenValidator(first.value))
    ensures SecretMissing(first) ==> r1 == Failure(SecretRequired)
    ensures SecretMissing(first) && !SecretMissing(later) ==> r2 == Success(NewTokenValidator(later.value))
  {
    var cache := new ValidatorCache();
    r1 := cache.GetTokenValidator(first);
    r2 := cache.GetTokenValidator(later);
  }
}
