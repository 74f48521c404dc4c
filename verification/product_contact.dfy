/**
 * `contactSistemasP`: the guard on the product name and the construction of
 * the WhatsApp message and link that the product buttons open.
 */
module ProductContact {
  import opened Wrappers
  import opened Text
  import opened Uri

  /** The value passed to `contactSistemasP`: a string, or a JavaScript value of any other type. */
  datatype Argument = StringValue(value: string) | OtherValue

  const MessagePrefix: string := "Hola, estoy interesado en el producto: "
  const MessageSuffix: string := ". ¿Podrían darme más información y cotización?"
  const WhatsAppPrefix: string := "https://wa.me/573185471853?text="

  /** The text sent for product `name`: the fixed greeting, the name verbatim, then the fixed request. */
  function Message(name: string): (m: string)
    ensures |m| == |MessagePrefix| + |name| + |MessageSuffix|
    ensures m[..|MessagePrefix|] == MessagePrefix
    ensures m[|m| - |MessageSuffix|..] == MessageSuffix
    ensures m[|MessagePrefix|..|m| - |MessageSuffix|] == name
  {
    var m := MessagePrefix + name + MessageSuffix;
    assert m[..|MessagePrefix|] == MessagePrefix;
    assert m[|m| - |MessageSuffix|..] == MessageSuffix;
    assert m[|MessagePrefix|..|m| - |MessageSuffix|] == name;
    m
  }

  /**
   * The link opened for `arg`, or `None` when the guard rejects it: a value
   * that is falsy, not a string, or a string that trims to empty.
   */
  function ContactUrl(arg: Argument): (r: Option<string>)
    ensures r.None? <==> arg.OtherValue? || Blank(arg.value)
    ensures r.Some? ==> |WhatsAppPrefix| <= |r.value| && r.value[..|WhatsAppPrefix|] == WhatsAppPrefix
    ensures r.Some? ==> AllUrlSafe(r.value[|WhatsAppPrefix|..])
  {
    if arg.OtherValue? || arg.value == "" || Trim(arg.value) == "" then None
    else
      var url := WhatsAppPrefix + EncodeURIComponent(Message(arg.value));
      assert url[|WhatsAppPrefix|..] == EncodeURIComponent(Message(arg.value));
      Some(url)
  }

  /** Reads the product name back out of a link: the inverse of `ContactUrl`. */
  function ProductFromUrl(url: string): Option<string> {
    if |url| < |WhatsAppPrefix| || url[..|WhatsAppPrefix|] != WhatsAppPrefix then None
    else
      match DecodeURIComponent(url[|WhatsAppPrefix|..])
      case None => None
      case Some(m) =>
        if |m| >= |MessagePrefix| + |MessageSuffix|
           && m[..|MessagePrefix|] == MessagePrefix
           && m[|m| - |MessageSuffix|..] == MessageSuffix
        then Some(m[|MessagePrefix|..|m| - |MessageSuffix|])
        else None
  }

  /** The link carries the product name verbatim: decoding it gives the name back. */
  lemma ContactUrlRoundTrip(arg: Argument)
    requires ContactUrl(arg).Some?
    ensures ProductFromUrl(ContactUrl(arg).value) == Some(arg.value)
  {
    LinkOf(arg);
    LinkRoundTrip(arg.value);
  }

  lemma LinkOf(arg: Argument)
    requires ContactUrl(arg).Some?
    ensures ContactUrl(arg).value == WhatsAppPrefix + EncodeURIComponent(Message(arg.value))
  {
  }

  lemma LinkRoundTrip(name: string)
    ensures ProductFromUrl(WhatsAppPrefix + EncodeURIComponent(Message(name))) == Some(name)
  {
    var m := Message(name);
    var url := WhatsAppPrefix + EncodeURIComponent(m);
    assert url[..|WhatsAppPrefix|] == WhatsAppPrefix;
    assert url[|WhatsAppPrefix|..] == EncodeURIComponent(m);
    DecodeEncode(m);
  }

  /** Distinct accepted names give distinct links. */
  lemma ContactUrlInjective(a: Argument, b: Argument)
    ensures ContactUrl(a).Some? && ContactUrl(a) == ContactUrl(b) ==> a == b
  {
    if ContactUrl(a).Some? && ContactUrl(a) == ContactUrl(b) {
      ContactUrlRoundTrip(a);
      ContactUrlRoundTrip(b);
    }
  }

  /** Whatever the name holds, the query string of the link has no `&`, `#`, `=` or space of its own. */
  lemma ContactUrlSingleParameter(arg: Argument, i: nat)
    requires arg.StringValue? && !Blank(arg.value)
    ensures |WhatsAppPrefix| <= i < |ContactUrl(arg).value| ==>
      var c := ContactUrl(arg).value[i]; c != '&' && c != '#' && c != '=' && c != ' '
  {
    if |WhatsAppPrefix| <= i < |ContactUrl(arg).value| {
      SafeTailHasNoSeparator(ContactUrl(arg).value, i);
    }
  }

  lemma SafeTailHasNoSeparator(url: string, i: nat)
    requires |WhatsAppPrefix| <= i < |url| && AllUrlSafe(url[|WhatsAppPrefix|..])
    ensures url[i] != '&' && url[i] != '#' && url[i] != '=' && url[i] != ' '
  {
    var tail := url[|WhatsAppPrefix|..];
    assert url[i] == tail[i - |WhatsAppPrefix|];
    assert UrlSafe(tail[i - |WhatsAppPrefix|]);
  }
}
