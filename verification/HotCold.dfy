/**
 How often and how recently an LPN was written, and the running average that garbage collection
 compares it with (conv_ftl.c:62-101, 1490-1492).
 */
module HotCold {
  import opened Arith
  import opened VictimScore

  /** calc_hot_degree. */
  function HotDegree(updates: nat, lastWrite: nat, now: nat): (r: nat) {
    if updates == 0 then 0 else Quo(updates * 1000, AgeWeight(Elapsed(now, lastWrite)))
  }

  /** page_is_hot: the average is in sixteenths. */
  predicate IsHot(updates: nat, lastWrite: nat, now: nat, average: nat) {
    HotDegree(updates, lastWrite, now) * 16 >= average
  }

  /** The moving average after one more write. */
  function NextAverage(average: nat, degree: nat): (r: nat) {
    (average * 15 + degree * 16) / 16
  }

  // What is noted of every LPN's writes: how many, the last one's time, and the running average.
  datatype Notes = Notes(updates: seq<nat>, lastWrites: seq<nat>, average: nat)

  /** The notes after a write of an LPN (conv_ftl.c:1486-1492). */
  function NoteWrite(m: Notes, lpn: nat, now: nat): Notes {
    if lpn < |m.updates| && lpn < |m.lastWrites| then
      var n := m.updates[lpn] + 1;
      Notes(m.updates[lpn := n], m.lastWrites[lpn := now], NextAverage(m.average, HotDegree(n, now, now)))
    else m
  }

  /** A copy of this LPN is routed to the hot or the cold stream as page_is_hot decides, at some reading of
      the clock. */
  ghost predicate Decides(m: Notes, lpn: nat, hot: bool) {
    && lpn < |m.updates| && lpn < |m.lastWrites|
    && exists now: nat :: hot == IsHot(m.updates[lpn], m.lastWrites[lpn], now, m.average)
  }

  lemma AgeWeightMono(a: nat, b: nat)
    requires a <= b
    ensures AgeWeight(a) <= AgeWeight(b)
  {
  }

  lemma QuoAnti(x: nat, y: nat, a: nat, b: nat)
    requires y <= x && 0 < a <= b
    ensures Quo(y, b) <= Quo(x, a)
  {
    var q := Quo(y, b);
    PartsMix(y, b);
    MulMono(a, b, q);
    Commute(a, q);
    Commute(b, q);
    QuoBetween(x, a, q);
  }

  /** A page written at least as often, and not longer ago, is hot whenever the other one is: cold
      pages never overtake hotter ones. */
  lemma HotterStaysHot(updates: nat, last: nat, updates': nat, last': nat, now: nat, average: nat)
    requires updates <= updates' && last <= last' && IsHot(updates, last, now, average)
    ensures IsHot(updates', last', now, average)
  {
    hide Quo, AgeWeight;
    if updates > 0 {
      var a, b := Elapsed(now, last'), Elapsed(now, last);
      AgeWeightMono(a, b);
      QuoAnti(updates' * 1000, updates * 1000, AgeWeight(a), AgeWeight(b));
    }
  }

  /** The average in sixteenths is fifteen parts of the old one and one of the degree just seen, rounded
      down; it moves towards that degree and never past it, except that rounding may stop it below. */
  lemma AverageBetween(average: nat, degree: nat)
    ensures var next := NextAverage(average, degree);
            && (average <= 16 * degree ==> average <= next <= 16 * degree)
            && (16 * degree <= average ==> next <= average)
            && 16 * next <= 15 * average + 16 * degree < 16 * next + 16
  {
  }
}
