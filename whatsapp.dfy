/** The contact popup of a student's guardian: the phone number reduced to
    what a WhatsApp link can dial, the link itself, and the greeting that is
    offered with it. */
module WhatsApp {
  import opened Js
  import opened Sequences

  /** The characters `[\d+]` that survive cleaning. */
  predicate Dialable(c: char)
  {
    IsDigit(c) || c == '+'
  }

  predicate AllDialable(s: string)
  {
    forall i :: 0 <= i < |s| ==> Dialable(s[i])
  }

  /** `.replace(/\s+/g, '')`: every run of whitespace is removed, which
      removes every whitespace character. */
  function StripWhitespace(s: string): string
  {
    if s == [] then []
    else (if IsWhitespace(s[0]) then [] else [s[0]]) + StripWhitespace(s[1..])
  }

  /** `.replace(/[^\d+]/g, '')`: every character other than a digit or `+`
      is removed. */
  function KeepDialable(s: string): string
  {
    if s == [] then []
    else (if Dialable(s[0]) then [s[0]] else []) + KeepDialable(s[1..])
  }

  /** `cleanPhoneNumber`: the two replacements, in source order. */
  function CleanPhoneNumber(phoneNumber: string): string
  {
    KeepDialable(StripWhitespace(phoneNumber))
  }

  // ---------------------------------------------------------------------
  // Properties of the filter
  // ---------------------------------------------------------------------

  /** Cleaning distributes over concatenation. */
  lemma {:induction false} KeepDialableAppend(a: string, b: string)
    ensures KeepDialable(a + b) == KeepDialable(a) + KeepDialable(b)
  {
    if a != [] {
      assert (a + b)[0] == a[0];
      assert (a + b)[1..] == a[1..] + b;
      KeepDialableAppend(a[1..], b);
    } else {
      assert a + b == b;
    }
  }

  /** No whitespace character is dialable, so the first replacement never
      changes what the second one leaves: cleaning is a single filter. */
  lemma {:induction false} CleanIsOneFilter(s: string)
    ensures CleanPhoneNumber(s) == KeepDialable(s)
  {
    if s != [] {
      CleanIsOneFilter(s[1..]);
      var head := if IsWhitespace(s[0]) then [] else [s[0]];
      KeepDialableAppend(head, StripWhitespace(s[1..]));
      assert IsWhitespace(s[0]) ==> !Dialable(s[0]);
    }
  }

  /** Every character of the cleaned number is a digit or `+`. */
  lemma {:induction false} CleanAlphabet(s: string)
    ensures AllDialable(CleanPhoneNumber(s))
  {
    CleanIsOneFilter(s);
    KeepDialableAlphabet(s);
  }

  lemma {:induction false} KeepDialableAlphabet(s: string)
    ensures AllDialable(KeepDialable(s))
  {
    if s != [] {
      KeepDialableAlphabet(s[1..]);
      var head := if Dialable(s[0]) then [s[0]] else [];
      assert KeepDialable(s) == head + KeepDialable(s[1..]);
    }
  }

  /** The cleaned number keeps the input's digit and `+` characters, each
      as often as the input has it, and nothing else. */
  lemma {:induction false} CleanCounts(s: string)
    ensures forall c :: multiset(CleanPhoneNumber(s))[c] == if Dialable(c) then multiset(s)[c] else 0
  {
    CleanIsOneFilter(s);
    KeepDialableCounts(s);
  }

  lemma {:induction false} KeepDialableCounts(s: string)
    ensures forall c :: multiset(KeepDialable(s))[c] == if Dialable(c) then multiset(s)[c] else 0
  {
    if s != [] {
      KeepDialableCounts(s[1..]);
      var head := if Dialable(s[0]) then [s[0]] else [];
      assert KeepDialable(s) == head + KeepDialable(s[1..]);
      assert s == [s[0]] + s[1..];
      assert multiset(s) == multiset([s[0]]) + multiset(s[1..]);
    }
  }

  /** The cleaned number is a subsequence of the input: the kept characters
      keep their original order. */
  lemma {:induction false} CleanIsSubsequence(s: string)
    ensures IsSubsequence(CleanPhoneNumber(s), s)
  {
    CleanIsOneFilter(s);
    KeepDialableIsSubsequence(s);
  }

  lemma {:induction false} KeepDialableIsSubsequence(s: string)
    ensures IsSubsequence(KeepDialable(s), s)
  {
    if s != [] {
      KeepDialableIsSubsequence(s[1..]);
      var k := KeepDialable(s);
      if Dialable(s[0]) {
        assert k == [s[0]] + KeepDialable(s[1..]);
        assert k[0] == s[0] && k[1..] == KeepDialable(s[1..]);
      } else {
        // the kept characters are dialable, so none of them is s[0]
        assert k == KeepDialable(s[1..]);
        KeepDialableAlphabet(s[1..]);
        assert k != [] ==> k[0] != s[0];
      }
    }
  }

  /** The cleaned number is at most as long as the input. */
  lemma CleanNoLonger(s: string)
    ensures |CleanPhoneNumber(s)| <= |s|
  {
    CleanIsSubsequence(s);
    SubsequenceLength(CleanPhoneNumber(s), s);
  }

  /** A number made only of digits and `+` is returned unchanged, and it is
      the only kind of number that is. */
  lemma {:induction false} CleanFixesExactlyDialable(s: string)
    ensures CleanPhoneNumber(s) == s <==> AllDialable(s)
  {
    CleanIsOneFilter(s);
    KeepDialableAlphabet(s);
    if AllDialable(s) {
      KeepDialableIdentity(s);
    }
  }

  lemma {:induction false} KeepDialableIdentity(s: string)
    requires AllDialable(s)
    ensures KeepDialable(s) == s
  {
    if s != [] {
      assert Dialable(s[0]);
      assert AllDialable(s[1..]) by {
        forall i | 0 <= i < |s[1..]| ensures Dialable(s[1..][i]) {
          assert s[1..][i] == s[i + 1];
        }
      }
      KeepDialableIdentity(s[1..]);
    }
  }

  /** Cleaning twice is cleaning once. */
  lemma CleanIdempotent(s: string)
    ensures CleanPhoneNumber(CleanPhoneNumber(s)) == CleanPhoneNumber(s)
  {
    CleanAlphabet(s);
    CleanFixesExactlyDialable(CleanPhoneNumber(s));
  }

  // ---------------------------------------------------------------------
  // The link and the greeting
  // ---------------------------------------------------------------------

  const UrlPrefix: string := "https://wa.me/"

  /** `whatsappUrl`. */
  function WhatsAppUrl(phoneNumber: string): string
  {
    UrlPrefix + CleanPhoneNumber(phoneNumber)
  }

  /** The number a wa.me link dials, if the text is such a link. */
  function DialledNumber(url: string): Option<string>
  {
    if |url| >= |UrlPrefix| && url[..|UrlPrefix|] == UrlPrefix then Some(url[|UrlPrefix|..])
    else None
  }

  /** The link dials exactly the cleaned number, which holds only digits
      and `+`. */
  lemma UrlDialsCleanNumber(phoneNumber: string)
    ensures DialledNumber(WhatsAppUrl(phoneNumber)) == Some(CleanPhoneNumber(phoneNumber))
    ensures AllDialable(DialledNumber(WhatsAppUrl(phoneNumber)).value)
  {
    var url := WhatsAppUrl(phoneNumber);
    assert url[..|UrlPrefix|] == UrlPrefix;
    assert url[|UrlPrefix|..] == CleanPhoneNumber(phoneNumber);
    CleanAlphabet(phoneNumber);
  }

  const GreetingHead: string := "Merhaba "
  const GreetingJoin: string := ", "
  const GreetingTail: string := " hakk\U{0131}nda bilgi almak istiyorum."

  /** `defaultMessage`. */
  function DefaultMessage(contactName: string, studentName: string): string
  {
    GreetingHead + contactName + GreetingJoin + studentName + GreetingTail
  }

  /** For a given contact, different students get different greetings, and
      for a given student, different contacts do. */
  lemma DefaultMessageInjective(c1: string, s1: string, c2: string, s2: string)
    requires DefaultMessage(c1, s1) == DefaultMessage(c2, s2)
    ensures c1 == c2 <==> s1 == s2
  {
    var m := DefaultMessage(c1, s1);
    var h := |GreetingHead|;
    if c1 == c2 {
      assert m[h + |c1| + |GreetingJoin| .. |m| - |GreetingTail|] == s1;
      assert DefaultMessage(c2, s2)[h + |c2| + |GreetingJoin| .. |m| - |GreetingTail|] == s2;
    }
    if s1 == s2 {
      assert |c1| == |c2|;
      assert m[h .. h + |c1|] == c1;
      assert DefaultMessage(c2, s2)[h .. h + |c2|] == c2;
    }
  }

  // ---------------------------------------------------------------------
  // The popup
  // ---------------------------------------------------------------------

  datatype PopupProps = PopupProps(isOpen: bool, phoneNumber: string, contactName: string, studentName: string)

  /** What an open popup shows and offers: the link to open, the greeting
      to send, and the text the copy button puts on the clipboard. */
  datatype PopupView = PopupView(contactName: string, studentName: string, shownNumber: string,
                                 whatsappUrl: string, message: string, copiedText: string)

  /** `WhatsAppPopup`: a closed popup renders nothing. */
  function Popup(props: PopupProps): (r: Option<PopupView>)
    ensures r.None? <==> !props.isOpen
    ensures r.Some? ==> DialledNumber(r.value.whatsappUrl) == Some(CleanPhoneNumber(props.phoneNumber))
    ensures r.Some? ==> r.value.copiedText == props.phoneNumber == r.value.shownNumber
    ensures r.Some? ==> r.value.message == DefaultMessage(props.contactName, props.studentName)
    ensures r.Some? ==> r.value.contactName == props.contactName && r.value.studentName == props.studentName
  {
    if !props.isOpen then None
    else
      UrlDialsCleanNumber(props.phoneNumber);
      Some(PopupView(props.contactName, props.studentName, props.phoneNumber,
                     WhatsAppUrl(props.phoneNumber),
                     DefaultMessage(props.contactName, props.studentName),
                     props.phoneNumber))
  }

  /** The copy button copies the number as typed, the link dials the cleaned
      number; the two agree exactly when the number has only digits and `+`. */
  lemma CopiedMatchesDialled(props: PopupProps)
    requires props.isOpen
    ensures Popup(props).value.copiedText == DialledNumber(Popup(props).value.whatsappUrl).value
            <==> AllDialable(props.phoneNumber)
  {
    CleanFixesExactlyDialable(props.phoneNumber);
  }
}
