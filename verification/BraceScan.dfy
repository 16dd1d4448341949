/** Matching braces by a depth counter. */
module BraceScan {

  /** Where the depth comes back to zero, or how deep the text ends. */
  datatype Scan = Closed(at: nat) | Open(depth: nat)

  function Later(scan: Scan, shift: nat): Scan {
    match scan
    case Closed(at) => Closed(at + shift)
    case Open(_) => scan
  }

  function Weight(c: char): int {
    if c == '{' then 1 else if c == '}' then -1 else 0
  }

  /** Scans on at a depth of at least one. */
  function ScanBraces(text: string, depth: nat): (scan: Scan)
    requires depth > 0
    ensures scan.Closed? ==> scan.at < |text| && text[scan.at] == '}'
    ensures scan.Open? ==> scan.depth > 0
  {
    if text == [] then Open(depth)
    else if depth + Weight(text[0]) == 0 then Closed(0)
    else Later(ScanBraces(text[1..], depth + Weight(text[0])), 1)
  }

  /** Opening braces less closing braces. */
  function Net(text: string): int {
    if text == [] then 0 else Weight(text[0]) + Net(text[1..])
  }

  lemma {:induction false} NetCounts(text: string)
    ensures Net(text) + multiset(text)['}'] == multiset(text)['{']
  {
    if text != [] {
      NetCounts(text[1..]);
      assert text == [text[0]] + text[1..];
    }
  }

  /** Every prefix shorter than `n` leaves something open. */
  ghost predicate OpenBefore(text: string, depth: nat, n: nat)
    requires n <= |text| + 1
  {
    forall k :: 0 <= k < n ==> depth + Net(text[..k]) > 0
  }

  lemma NetOfPrefix(text: string, k: nat)
    requires 0 < k <= |text|
    ensures Net(text[..k]) == Weight(text[0]) + Net(text[1..][..k - 1])
  {
    assert text[..k][1..] == text[1..][..k - 1];
  }

  lemma OpenFromRest(text: string, depth: nat, n: nat)
    requires depth > 0 && text != [] && n <= |text| && depth + Weight(text[0]) > 0
    requires OpenBefore(text[1..], depth + Weight(text[0]), n)
    ensures OpenBefore(text, depth, n + 1)
  {
    forall k | 0 <= k < n + 1 ensures depth + Net(text[..k]) > 0 {
      if k > 0 {
        NetOfPrefix(text, k);
      }
    }
  }

  /** The scan stops exactly at the first brace that balances the count. */
  lemma {:induction false} ScanFindsMatch(text: string, depth: nat)
    requires depth > 0
    ensures match ScanBraces(text, depth)
            case Closed(at) => OpenBefore(text, depth, at + 1) && depth + Net(text[..at + 1]) == 0
            case Open(d) => OpenBefore(text, depth, |text| + 1) && d == depth + Net(text)
  {
    hide OpenBefore;
    if text == [] {
      EmptyStaysOpen(text, depth);
    } else if depth + Weight(text[0]) == 0 {
      NetOfPrefix(text, 1);
      EmptyStaysOpen(text, depth);
    } else {
      var rest, d := text[1..], depth + Weight(text[0]);
      ScanFindsMatch(rest, d);
      match ScanBraces(rest, d) {
        case Closed(at) =>
          OpenFromRest(text, depth, at + 1);
          NetOfPrefix(text, at + 2);
        case Open(_) =>
          OpenFromRest(text, depth, |rest| + 1);
      }
    }
  }

  lemma EmptyStaysOpen(text: string, depth: nat)
    requires depth > 0
    ensures OpenBefore(text, depth, 1)
  {
  }

  /** A scan that closes ignores what follows; one that does not goes on from its depth. */
  lemma {:induction false} ScanSplits(a: string, b: string, depth: nat)
    requires depth > 0
    ensures var scan := ScanBraces(a, depth);
            ScanBraces(a + b, depth) == if scan.Closed? then scan else Later(ScanBraces(b, scan.depth), |a|)
  {
    if a == [] {
      assert a + b == b;
    } else if depth + Weight(a[0]) > 0 {
      assert (a + b)[1..] == a[1..] + b;
      ScanSplits(a[1..], b, depth + Weight(a[0]));
    }
  }
}
