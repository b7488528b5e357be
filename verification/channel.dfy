/** The release channel of a compiler. */
module Channels {
  import Dates

  datatype Channel = Stable | Beta | Nightly(date: Dates.Date) | Dev

  predicate IsNightly(c: Channel) {
    match c
    case Nightly(_) => true
    case _ => false
  }

  predicate IsStable(c: Channel) {
    match c
    case Stable => true
    case _ => false
  }

  predicate IsBeta(c: Channel) {
    match c
    case Beta => true
    case _ => false
  }

  predicate IsDevelopment(c: Channel) {
    match c
    case Dev => true
    case _ => false
  }

  /** Exactly one of the channel tests holds, and it names the variant. */
  lemma ExactlyOneChannel(c: Channel)
    ensures IsNightly(c) <==> c.Nightly?
    ensures IsStable(c) <==> c.Stable?
    ensures IsBeta(c) <==> c.Beta?
    ensures IsDevelopment(c) <==> c.Dev?
    ensures (if IsNightly(c) then 1 else 0) + (if IsStable(c) then 1 else 0)
          + (if IsBeta(c) then 1 else 0) + (if IsDevelopment(c) then 1 else 0) == 1
  {
  }
}
