/** Keys that several tables share. */
module Ids {
  type ContactId = nat
  type ChatId = nat
}
