/** Text helpers several models share: white space, trimming, joining. */
module Text {

  predicate IsSpace(c: char) { c in " \t\n\r\U{0B}\U{0C}" }

  function TrimLeft(s: string): string {
    if s != "" && IsSpace(s[0]) then TrimLeft(s[1..]) else s
  }

  function TrimRight(s: string): string {
    if s != "" && IsSpace(s[|s| - 1]) then TrimRight(s[..|s| - 1]) else s
  }

  function Trim(s: string): string { TrimRight(TrimLeft(s)) }
}
