/**
 * Fixed configuration of the signal bot: the two reply templates, the list of
 * OTC pairs offered on the keyboard, and the cooldown window (main.py:17-32).
 */
module Bot {

  /** The single replacement field the templates contain, filled with the pair name. */
  const Placeholder: string := "{pair}"

  /** Pieces shared by both templates: the bold signal label and the footer line. */
  const SignalLabel: string := "**Signal:** "
  const Footer: string := "\n\nTrading x Flow x Bot"

  /** Text of the BUY template before its field: two green circles and a space. */
  const UpBanner: string := "\U{1F7E2}\U{1F7E2} "

  /** Text of the BUY template after its field: closing circles, signal line (three up arrows, chart up), footer. */
  const UpBody: string :=
    " \U{1F7E2}\U{1F7E2}\n\n\U{1F4CA} " + SignalLabel + "\U{2B06}\U{FE0F}\U{2B06}\U{FE0F}\U{2B06}\U{FE0F} \U{1F4C8}" + Footer

  /** Text of the SELL template before its field: two red circles and a space. */
  const DownBanner: string := "\U{1F534}\U{1F534} "

  /**
   * Text of the SELL template after its field. The arrows read down, down, up,
   * as main.py:19 has them; the chart points down.
   */
  const DownBody: string :=
    " \U{1F534}\U{1F534}\n\n\U{1F4CA} " + SignalLabel + "\U{2B07}\U{FE0F}\U{2B07}\U{FE0F}\U{2B06}\U{FE0F} \U{1F4C9}" + Footer

  /** Parts of each template around its field, index 0 for BUY and 1 for SELL. */
  const Banners: seq<string> := [UpBanner, DownBanner]
  const Bodies: seq<string> := [UpBody, DownBody]

  /** The `responses` list: each template is its banner, the field, then its body. */
  const Responses: seq<string> := [UpBanner + Placeholder + UpBody, DownBanner + Placeholder + DownBody]

  /** The `otc_pairs` list, in keyboard order. */
  const OtcPairs: seq<string> := [
    "AED/CNY OTC", "AUD/CHF OTC", "BHD/CNY OTC", "EUR/USD OTC",
    "CAD/CHF OTC", "NZD/JPY OTC", "EUR/CHF OTC", "GBP/JPY OTC"
  ]

  /** `COOLDOWN_TIME`, in seconds, as it is added to the clock reading. */
  const CooldownTime: real := 10.0

  /**
   * Shape of the configuration: two templates, each its banner, the field and
   * its body; eight distinct pairs; a ten-second window.
   */
  lemma Configuration()
    ensures |Responses| == |Banners| == |Bodies| == 2
    ensures forall k :: 0 <= k < 2 ==> Responses[k] == Banners[k] + Placeholder + Bodies[k]
    ensures |OtcPairs| == 8
    ensures forall i, j :: 0 <= i < j < |OtcPairs| ==> OtcPairs[i] != OtcPairs[j]
    ensures CooldownTime == 10.0
  {
  }
}
