/** The completion request text: a fixed instruction block, the diff exactly
    as read, and the blank line the template literal ends with. Nothing is
    truncated or escaped. */
module Prompt {
  import opened Wrappers

  /** Instructions of the interactive generator, up to where the diff goes. */
  const CommitPromptHead :=
    "\n"
    + "You are a helpful assistant that generates Git commit messages.\n"
    + "\n"
    + "From the following git diff, generate:\n"
    + "1. A short commit title (max 70 chars, Conventional Commits style)\n"
    + "2. A commit description (1-3 sentences) ONLY IF ABSOLUTELY NECESSARY.\n"
    + "   - If the commit title already fully explains the change, write \"description:\" and leave it completely empty.\n"
    + "   - Do not invent or rephrase explanations just to fill the description.\n"
    + "   - Only add a description for complex or multi-file changes.\n"
    + "\n"
    + "Output format (strict):\n"
    + "title: <short title>\n"
    + "description: <leave blank if not needed>\n"
    + "\n"
    + "Here is the git diff:\n"

  /** Instructions of the earlier, file-only generator. */
  const DraftPromptHead :=
    "\n"
    + "You are a helpful assistant that generates Git commit messages.\n"
    + "\n"
    + "From the following git diff, generate:\n"
    + "1. A short commit title (max 70 chars, Conventional Commits style)\n"
    + "2. A commit description (1-3 sentences) ONLY if necessary. \n"
    + "   - If the changes are small or fully explained by the title, leave the description empty. \n"
    + "   - Use the description to explain larger or complex changes.\n"
    + "\n"
    + "Output format:\n"
    + "title: <short title>\n"
    + "description: <longer description or leave empty if not needed>\n"
    + "\n"
    + "Here is the git diff:\n"

  /** What the template literal holds after the interpolated diff. */
  const PromptTail := "\n  "

  /** The template `head`, then the diff verbatim, then the tail. */
  function Render(head: string, diff: string): string {
    head + diff + PromptTail
  }

  /** The two generators' templates. */
  datatype Template = Interactive | FileOnly

  /** The instructions a template puts in front of the diff. */
  function Head(t: Template): string {
    match t
    case Interactive => CommitPromptHead
    case FileOnly => DraftPromptHead
  }

  /** The prompt text a template gives for a diff. */
  function PromptText(t: Template, diff: string): string {
    Render(Head(t), diff)
  }

  /** The diff a prompt built from `head` carries, if it was built from `head`. */
  function DiffOf(head: string, prompt: string): Option<string> {
    if |prompt| < |head| + |PromptTail| then None
    else if prompt[..|head|] != head || prompt[|prompt| - |PromptTail|..] != PromptTail then None
    else Some(prompt[|head|..|prompt| - |PromptTail|])
  }

  /** The diff travels through the prompt unchanged and can be read back. */
  lemma DiffRoundTrip(head: string, diff: string)
    ensures DiffOf(head, Render(head, diff)) == Some(diff)
  {
    var p := Render(head, diff);
    assert p[..|head|] == head;
    assert p[|p| - |PromptTail|..] == PromptTail;
    assert p[|head|..|p| - |PromptTail|] == diff;
  }

  /** Different diffs give different prompts. */
  lemma RenderInjective(head: string, d1: string, d2: string)
    ensures Render(head, d1) == Render(head, d2) <==> d1 == d2
  {
    if Render(head, d1) == Render(head, d2) {
      DiffRoundTrip(head, d1);
      DiffRoundTrip(head, d2);
    }
  }

  /** The two generators ask for the same layout in different words. */
  lemma TemplatesDiffer(diff: string)
    ensures PromptText(Interactive, diff) != PromptText(FileOnly, diff)
  {
    assert |CommitPromptHead| != |DraftPromptHead|;
  }
}
