/** The string logic of the chat widget in static/js/chatbot.js: the trimmed
    input guard of `sendMessage`, the invoice reformatting of a reply, the
    newline-to-`<br>` rendering of bot messages in `addMessage`, and the height
    clamp of `autoResize`. Layout and the network are parameters. */
module ChatClient {
  import opened Wrappers
  import opened Text

  const OrderInvoice: string := "Order Invoice"

  /** The dash literal of the reformat regular expression (29 hyphens). */
  const DashRule: string := seq(29, _ => '-')

  /** `'─'.repeat(35)`. */
  const BoxRule: string := seq(35, _ => '\U{2500}')

  const Apology: string := "Sorry, I am unable to process your request right now."

  const MaxInputHeight: int := 120

  // ---------------------------------------------------------------------------
  // Input guard

  /** `textarea.value.trim()`, or nothing to send when that is empty. */
  function MessageToSend(value: string): (r: Option<string>)
    ensures r.Some? ==> r.value != [] && !JsSpace(r.value[0]) && !JsSpace(r.value[|r.value| - 1])
  {
    var message := Strip(value, JsSpace);
    if message == [] then None else Some(message)
  }

  /** Nothing is sent exactly when the input is all whitespace, and what is sent
      is the input without its surrounding whitespace. */
  lemma {:induction false} MessageToSendMeaning(value: string)
    ensures MessageToSend(value).None? <==> forall k :: 0 <= k < |value| ==> JsSpace(value[k])
    ensures MessageToSend(value).Some? ==>
      exists lo, hi :: 0 <= lo < hi <= |value| && MessageToSend(value).value == value[lo..hi]
        && (forall k :: 0 <= k < lo ==> JsSpace(value[k])) && (forall k :: hi <= k < |value| ==> JsSpace(value[k]))
  {
    StripEmptyIff(value, JsSpace);
    var lo, hi := StripIsSlice(value, JsSpace);
  }

  // ---------------------------------------------------------------------------
  // Bot message rendering

  /** `message.replace(/\n/g, '<br>')`. */
  function FormatBotMessage(message: string): (html: string)
  {
    ReplaceAll(message, "\n", "<br>")
  }

  /** No newline survives the rendering of a bot message, and a message without
      newlines is rendered as it is. */
  lemma {:induction false} FormatBotMessageMeaning(message: string)
    ensures !Contains(FormatBotMessage(message), "\n")
    ensures !Contains(message, "\n") ==> FormatBotMessage(message) == message
  {
    ReplaceAllRemovesPattern(message, "\n", "<br>");
    if !Contains(message, "\n") {
      ReplaceAllAbsent(message, "\n", "<br>");
    }
  }

  /** Each newline becomes `<br>`: up to the first newline the message is copied,
      that newline is replaced, and the rendering goes on after it. */
  lemma {:induction false} FormatBotMessageNewline(a: string, b: string)
    requires '\n' !in a
    ensures FormatBotMessage(a + "\n" + b) == a + "<br>" + FormatBotMessage(b)
  {
    var s := a + "\n" + b;
    forall k | 0 <= k < |a|
      ensures !OccursAt(s, "\n", k)
    {
      assert s[k..k + 1][0] == a[k] != '\n';
    }
    assert s[|a|..|a| + 1] == "\n";
    ReplaceAllFirst(s, "\n", "<br>", |a|);
    assert s[..|a|] == a && s[|a| + 1..] == b;
  }

  // ---------------------------------------------------------------------------
  // Invoice reformatting

  /** No two spaces in a row. */
  predicate NoDoubleSpace(s: string)
  {
    forall k :: 0 <= k < |s| - 1 ==> !(s[k] == ' ' && s[k + 1] == ' ')
  }

  /** `s.replace(/ {2,}/g, ' ')`: every run of two or more spaces becomes one space. */
  function CollapseSpaces(s: string): (r: string)
    ensures |r| <= |s|
    ensures s != [] ==> r != [] && r[0] == s[0]
    decreases |s|
  {
    if |s| == 0 then []
    else if |s| >= 2 && s[0] == ' ' && s[1] == ' ' then CollapseSpaces(s[1..])
    else [s[0]] + CollapseSpaces(s[1..])
  }

  predicate IsBlank(c: char)
  {
    c == ' '
  }

  /** The regular expression ` {2,}` applied globally, as a reference: scanning
      from the left, a run of two or more spaces is matched whole (the quantifier
      is greedy) and becomes one space; any other character is copied. */
  function CollapseRuns(s: string): (r: string)
    decreases |s|
  {
    if s == [] then []
    else
      var n := SkipForward(s, IsBlank, 0);
      if n >= 2 then " " + CollapseRuns(s[n..]) else [s[0]] + CollapseRuns(s[1..])
  }

  /** A leading run of `n` spaces collapses to one space. */
  lemma {:induction false} CollapseRun(s: string, n: nat)
    requires 1 <= n <= |s|
    requires forall k :: 0 <= k < n ==> s[k] == ' '
    requires n < |s| ==> s[n] != ' '
    ensures CollapseSpaces(s) == " " + CollapseSpaces(s[n..])
    decreases n
  {
    var t := s[1..];
    if n >= 2 {
      assert s[0] == ' ' && s[1] == ' ';
      assert CollapseSpaces(s) == CollapseSpaces(t);
      forall k | 0 <= k < n - 1
        ensures t[k] == ' '
      {
        assert t[k] == s[k + 1];
      }
      assert n - 1 < |t| ==> t[n - 1] == s[n];
      CollapseRun(t, n - 1);
      assert t[n - 1..] == s[n..];
    } else {
      assert !(|s| >= 2 && s[1] == ' ');
      assert CollapseSpaces(s) == [s[0]] + CollapseSpaces(t);
      assert t == s[n..];
    }
  }

  /** The character-by-character collapse agrees with the run-by-run reference. */
  lemma {:induction false} CollapseSpacesMatchesRuns(s: string)
    ensures CollapseSpaces(s) == CollapseRuns(s)
    decreases |s|
  {
    if s != [] {
      var n := SkipForward(s, IsBlank, 0);
      if n >= 2 {
        CollapseRun(s, n);
        CollapseSpacesMatchesRuns(s[n..]);
      } else {
        assert !(|s| >= 2 && s[0] == ' ' && s[1] == ' ');
        CollapseSpacesMatchesRuns(s[1..]);
      }
    }
  }

  /** Texts that do not meet in two spaces collapse separately. */
  lemma {:induction false} CollapseAppend(a: string, b: string)
    requires a == [] || b == [] || a[|a| - 1] != ' ' || b[0] != ' '
    ensures CollapseSpaces(a + b) == CollapseSpaces(a) + CollapseSpaces(b)
    decreases |a|
  {
    if a == [] {
      assert a + b == b && CollapseSpaces(a) == [];
      assert CollapseSpaces(a) + CollapseSpaces(b) == CollapseSpaces(b);
    } else if |a| == 1 {
      CollapseAppendOne(a[0], b);
      assert [a[0]] == a && a[1..] == [];
      assert CollapseSpaces(a) == [a[0]] + CollapseSpaces([]) == [a[0]];
    } else {
      var t := a[1..];
      assert t[|t| - 1] == a[|a| - 1];
      CollapseAppend(t, b);
      CollapseAppendStep(a, b);
    }
  }

  /** One character followed by text that it does not meet in two spaces. */
  lemma CollapseAppendOne(c: char, b: string)
    requires b == [] || c != ' ' || b[0] != ' '
    ensures CollapseSpaces([c] + b) == [c] + CollapseSpaces(b)
  {
    var s := [c] + b;
    assert s[0] == c && s[1..] == b;
    assert !(|s| >= 2 && s[0] == ' ' && s[1] == ' ');
  }

  /** The inductive step of `CollapseAppend`: the first character of `a` is
      handled the same way whether `b` follows or not. */
  lemma CollapseAppendStep(a: string, b: string)
    requires |a| >= 2
    requires CollapseSpaces(a[1..] + b) == CollapseSpaces(a[1..]) + CollapseSpaces(b)
    ensures CollapseSpaces(a + b) == CollapseSpaces(a) + CollapseSpaces(b)
  {
    var s, t := a + b, a[1..];
    assert s[0] == a[0] && s[1] == a[1];
    assert s[1..] == t + b;
    var ct, cb := CollapseSpaces(t), CollapseSpaces(b);
    if a[0] == ' ' && a[1] == ' ' {
      assert CollapseSpaces(a) == ct;
      assert CollapseSpaces(s) == CollapseSpaces(t + b);
    } else {
      assert CollapseSpaces(a) == [a[0]] + ct;
      assert CollapseSpaces(s) == [a[0]] + CollapseSpaces(t + b);
      assert [a[0]] + (ct + cb) == ([a[0]] + ct) + cb;
    }
  }

  /** Collapsing leaves no double space. */
  lemma {:induction false} CollapseSpacesNoDouble(s: string)
    ensures NoDoubleSpace(CollapseSpaces(s))
    decreases |s|
  {
    if |s| > 0 {
      CollapseSpacesNoDouble(s[1..]);
      if !(|s| >= 2 && s[0] == ' ' && s[1] == ' ') {
        var rest := CollapseSpaces(s[1..]);
        var r := [s[0]] + rest;
        forall k | 0 <= k < |r| - 1
          ensures !(r[k] == ' ' && r[k + 1] == ' ')
        {
          if k > 0 {
            assert r[k] == rest[k - 1] && r[k + 1] == rest[k];
          }
        }
      }
    }
  }

  /** Collapsing removes spaces only: every other character is kept, in order. */
  lemma {:induction false} CollapseSpacesKeepsText(s: string)
    ensures Without(CollapseSpaces(s), ' ') == Without(s, ' ')
    decreases |s|
  {
    if |s| > 0 {
      CollapseSpacesKeepsText(s[1..]);
      if !(|s| >= 2 && s[0] == ' ' && s[1] == ' ') {
        WithoutAppend([s[0]], CollapseSpaces(s[1..]), ' ');
        WithoutAppend([s[0]], s[1..], ' ');
        assert s == [s[0]] + s[1..];
      } else {
        WithoutAppend([s[0]], s[1..], ' ');
        assert s == [s[0]] + s[1..];
      }
    }
  }

  /** Text without a double space is left as it is. */
  lemma {:induction false} CollapseSpacesIdentity(s: string)
    requires NoDoubleSpace(s)
    ensures CollapseSpaces(s) == s
    decreases |s|
  {
    if |s| > 0 {
      assert NoDoubleSpace(s[1..]) by {
        forall k | 0 <= k < |s[1..]| - 1
          ensures !(s[1..][k] == ' ' && s[1..][k + 1] == ' ')
        {
          assert s[1..][k] == s[k + 1] && s[1..][k + 1] == s[k + 2];
        }
      }
      CollapseSpacesIdentity(s[1..]);
      assert |s| >= 2 ==> !(s[0] == ' ' && s[1] == ' ');
    }
  }

  /** A space-free prefix of the collapsed text was a prefix of the text. */
  lemma {:induction false} CollapsePrefix(t: string, q: string)
    ensures ' ' !in q && q <= CollapseSpaces(t) ==> q <= t
    decreases |t|
  {
    if ' ' !in q && q <= CollapseSpaces(t) && |t| > 0 && |q| > 0 {
      assert q[0] == CollapseSpaces(t)[0] == t[0];
      assert q[0] in q;
      assert CollapseSpaces(t) == [t[0]] + CollapseSpaces(t[1..]);
      assert q[1..] <= CollapseSpaces(t[1..]);
      assert forall c :: c in q[1..] ==> c in q;
      CollapsePrefix(t[1..], q[1..]);
    }
  }

  /** Collapsing spaces cannot create an occurrence of a pattern that has no space. */
  lemma {:induction false} CollapseNoNewPattern(s: string, pat: string)
    requires |pat| > 0 && ' ' !in pat
    requires !Contains(s, pat)
    ensures !Contains(CollapseSpaces(s), pat)
    decreases |s|
  {
    if |s| > 0 {
      assert !Contains(s[1..], pat) by {
        if Contains(s[1..], pat) {
          var i :| 0 <= i <= |s[1..]| - |pat| && OccursAt(s[1..], pat, i);
          assert s[i + 1..i + 1 + |pat|] == s[1..][i..i + |pat|];
          assert OccursAt(s, pat, i + 1);
        }
      }
      CollapseNoNewPattern(s[1..], pat);
      var rest := CollapseSpaces(s[1..]);
      var r := CollapseSpaces(s);
      if !(|s| >= 2 && s[0] == ' ' && s[1] == ' ') {
        assert r == [s[0]] + rest;
        forall k | 0 <= k <= |r| - |pat|
          ensures !OccursAt(r, pat, k)
        {
          if k == 0 {
            assert !OccursAt(s, pat, 0);
            CollapsePrefix(s, pat);
          } else {
            OccursAfterPrefix([s[0]], rest, pat, k);
          }
        }
      }
    }
  }

  /** The reformat applied to replies that mention an order invoice: dash rules
      become box-drawing rules, space runs collapse, surrounding whitespace goes. */
  function InvoiceReformat(s: string): string
  {
    Strip(CollapseSpaces(ReplaceAll(s, DashRule, BoxRule)), JsSpace)
  }

  /** The reply text as shown: reformatted only when it contains `Order Invoice`. */
  function FormatResponse(s: string): string
  {
    if Contains(s, OrderInvoice) then InvoiceReformat(s) else s
  }

  /** A slice keeps the absence of double spaces and of a pattern. */
  lemma {:induction false} SliceKeepsAbsence(s: string, lo: nat, hi: nat, pat: string)
    requires lo <= hi <= |s|
    ensures NoDoubleSpace(s) ==> NoDoubleSpace(s[lo..hi])
    ensures !Contains(s, pat) ==> !Contains(s[lo..hi], pat)
  {
    var r := s[lo..hi];
    if NoDoubleSpace(s) {
      forall k | 0 <= k < |r| - 1
        ensures !(r[k] == ' ' && r[k + 1] == ' ')
      {
        assert r[k] == s[lo + k] && r[k + 1] == s[lo + k + 1];
      }
    }
    if Contains(r, pat) {
      var i :| 0 <= i <= |r| - |pat| && OccursAt(r, pat, i);
      OccursInSlice(s, lo, hi, pat, i);
    }
  }

  /** The reformat is the trimmed result of replacing every dash rule by a box
      rule and then every run of two or more spaces by one space; no dash rule
      remains, no two spaces are adjacent, and the text neither starts nor ends
      with whitespace. */
  lemma {:induction false} InvoiceReformatMeaning(s: string)
    ensures InvoiceReformat(s) == Strip(CollapseRuns(ReplaceAll(s, DashRule, BoxRule)), JsSpace)
    ensures var r := InvoiceReformat(s);
      !Contains(r, DashRule) && NoDoubleSpace(r) && (r == [] || (!JsSpace(r[0]) && !JsSpace(r[|r| - 1])))
  {
    var replaced := ReplaceAll(s, DashRule, BoxRule);
    var collapsed := CollapseSpaces(replaced);
    CollapseSpacesMatchesRuns(replaced);
    assert Disjoint(DashRule, BoxRule);
    ReplaceAllRemovesPattern(s, DashRule, BoxRule);
    assert ' ' !in DashRule;
    CollapseNoNewPattern(replaced, DashRule);
    CollapseSpacesNoDouble(replaced);
    var lo, hi := StripIsSlice(collapsed, JsSpace);
    SliceKeepsAbsence(collapsed, lo, hi, DashRule);
  }

  /** ` a  ` + rule + ` ` becomes `a ` + box rule: the dash rule is replaced, the
      double space becomes one, and the outer spaces are trimmed. */
  lemma {:induction false} InvoiceReformatExample()
    ensures InvoiceReformat(" a  " + DashRule + " ") == "a " + BoxRule
  {
    ExampleReplaced();
    ExampleCollapsed();
    var collapsed := " a " + BoxRule + " ";
    StripUnique(collapsed, JsSpace, 1, |collapsed| - 1);
    assert collapsed[1..|collapsed| - 1] == "a " + BoxRule;
  }

  lemma {:induction false} ExampleReplaced()
    ensures ReplaceAll(" a  " + DashRule + " ", DashRule, BoxRule) == " a  " + BoxRule + " "
  {
    var s := " a  " + DashRule + " ";
    assert DashRule[0] == '-';
    forall k | 0 <= k < 4
      ensures !OccursAt(s, DashRule, k)
    {
      assert s[k] != '-';
      if k + 29 <= |s| {
        assert s[k..k + 29][0] == s[k];
      }
    }
    assert s[4..33] == DashRule;
    ReplaceAllFirst(s, DashRule, BoxRule, 4);
    assert s[..4] == " a  " && s[33..] == " ";
    assert ReplaceAll(" ", DashRule, BoxRule) == " ";
  }

  lemma {:induction false} ExampleCollapsed()
    ensures CollapseSpaces(" a  " + BoxRule + " ") == " a " + BoxRule + " "
  {
    var tail := BoxRule + " ";
    assert " a  " + BoxRule + " " == " a  " + tail;
    CollapseAppend(" a  ", tail);
    assert CollapseSpaces(" a  ") == " a ";
    assert NoDoubleSpace(tail);
    CollapseSpacesIdentity(tail);
    assert " a " + tail == " a " + BoxRule + " ";
  }

  /** A reply that does not mention an order invoice is shown unchanged. */
  lemma {:induction false} PlainReplyUnchanged(s: string)
    requires !Contains(s, OrderInvoice)
    ensures FormatResponse(s) == s
  {
  }

  // ---------------------------------------------------------------------------
  // Height and reply

  /** `Math.min(scrollHeight, 120)`. */
  function ClampHeight(scrollHeight: int): (h: int)
    ensures h <= scrollHeight && h <= MaxInputHeight
    ensures h == scrollHeight || h == MaxInputHeight
  {
    if scrollHeight < MaxInputHeight then scrollHeight else MaxInputHeight
  }

  /** How the request to `/chat` ended: a thrown network error, a response that is
      not ok, a body that is not JSON, or a JSON body whose `response` field is a
      string (`Some`) or missing or of another type (`None`). */
  datatype FetchOutcome = NetworkError | NotOk | BadJson | Ok(response: Option<string>)

  /** The text of the bot message added after the request: the formatted reply,
      or the apology when anything on the way throws (`includes` on a missing
      field throws too). */
  function ReplyText(outcome: FetchOutcome): (text: string)
  {
    match outcome
    case Ok(Some(s)) => FormatResponse(s)
    case _ => Apology
  }

  /** Every failure ends in the apology, a usable reply never does unless it is the apology itself. */
  lemma {:induction false} ReplyTextMeaning(outcome: FetchOutcome)
    ensures !(outcome.Ok? && outcome.response.Some?) ==> ReplyText(outcome) == Apology
    ensures outcome.Ok? && outcome.response.Some? && !Contains(outcome.response.value, OrderInvoice) ==>
      ReplyText(outcome) == outcome.response.value
  {
  }

  // ---------------------------------------------------------------------------
  // The widget

  /** A message element: bot messages are set as HTML, user messages as text. */
  datatype MessageElement = UserText(text: string) | BotHtml(html: string)

  datatype Sender = User | Bot

  /** The element `addMessage` appends for a message of the given sender. */
  function Render(message: string, sender: Sender): (e: MessageElement)
    ensures sender == User ==> e == UserText(message)
    ensures sender == Bot ==> e == BotHtml(FormatBotMessage(message)) && !Contains(e.html, "\n")
  {
    FormatBotMessageMeaning(message);
    if sender == Bot then BotHtml(FormatBotMessage(message)) else UserText(message)
  }

  /** The state of the widget that `sendMessage` changes. */
  class ChatWidget {
    var input: string
    var inputHeight: int
    var typing: bool
    var messages: seq<MessageElement>

    constructor ()
      ensures input == [] && messages == [] && !typing
    {
      input := [];
      inputHeight := 0;
      typing := false;
      messages := [];
    }

    /** `autoResize`, given the height the content needs. */
    method AutoResize(scrollHeight: int)
      modifies this
      ensures inputHeight == ClampHeight(scrollHeight)
      ensures input == old(input) && typing == old(typing) && messages == old(messages)
    {
      inputHeight := ClampHeight(scrollHeight);
    }

    /** `addMessage`. */
    method AddMessage(message: string, sender: Sender)
      modifies this
      ensures messages == old(messages) + [Render(message, sender)]
      ensures input == old(input) && inputHeight == old(inputHeight) && typing == old(typing)
    {
      messages := messages + [Render(message, sender)];
    }

    /** The part of `sendMessage` after the blank check: `message` is shown as
        a user message, the input is cleared and resized (to `emptyHeight`, the
        height of the empty field), the typing indicator is shown while the
        request runs, and `reply` is shown as a bot message. */
    method Exchange(message: string, emptyHeight: int, reply: string)
      modifies this
      ensures messages == old(messages) + [UserText(message), Render(reply, Bot)]
      ensures input == [] && inputHeight == ClampHeight(emptyHeight) && !typing
    {
      AddMessage(message, User);
      input := [];
      AutoResize(emptyHeight);
      // The typing indicator is shown while the request runs and hidden when
      // it ends, whatever the outcome; only the hidden state is observable here.
      typing := false;
      AddMessage(reply, Bot);
    }

    /** `sendMessage`: a blank input changes nothing; otherwise the trimmed input
        and then the reply of the request, or the apology, are shown. */
    method SendMessage(emptyHeight: int, outcome: FetchOutcome)
      modifies this
      ensures MessageToSend(old(input)).None? ==>
        input == old(input) && inputHeight == old(inputHeight) && typing == old(typing) && messages == old(messages)
      ensures MessageToSend(old(input)).Some? ==>
        && messages == old(messages) + [UserText(MessageToSend(old(input)).value), Render(ReplyText(outcome), Bot)]
        && input == [] && inputHeight == ClampHeight(emptyHeight) && !typing
    {
      var toSend := MessageToSend(input);
      if toSend.None? {
        return;
      }
      Exchange(toSend.value, emptyHeight, ReplyText(outcome));
    }
  }
}
