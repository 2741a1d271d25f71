/**
 * The password hashing oracle behind `_hash_password` and `bcrypt.checkpw`.
 *
 * bcrypt itself is not modelled. A hash is an abstract value made of the
 * salt that `bcrypt.gensalt()` chose and an idealised image of the password:
 * the only operations used elsewhere are `HashPassword` and `CheckPassword`,
 * and the only facts used are the two lemmas below (a hash checks against
 * its own password and against no other one).
 */
module Passwords {

  datatype Hash = Hash(salt: nat, image: string)

  /** `_hash_password(password)` with the salt the random source produced. */
  function HashPassword(password: string, salt: nat): (h: Hash)
    ensures h.salt == salt
    ensures CheckPassword(password, h)
  {
    Hash(salt, password)
  }

  /** `bcrypt.checkpw(password, h)`. */
  predicate CheckPassword(password: string, h: Hash)
  {
    h.image == password
  }

  /** The idealised hash has no collisions: another password never checks. */
  lemma CheckRejectsOtherPassword(password: string, other: string, salt: nat)
    requires other != password
    ensures !CheckPassword(other, HashPassword(password, salt))
  {
  }
}
