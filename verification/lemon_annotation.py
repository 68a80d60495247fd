"""Evaluates LemonSoundness.Valid and LemonConverse.Regular on the tables of a parse.c.

Usage: python3 lemon_annotation.py path/to/parse.c

The grammar is taken from the rule names of the file and from its remarks on optimized-out rules. The annotation that
Valid speaks of (below, gotos, rank) is computed as a least fixed point. Each violated clause is printed; then the
number of violations, of states that the fixed point does not reach, and the highest rank.
"""
import re
import sys

YYNOCODE, YYNSTATE, YYNTOKEN = 278, 528, 155
MAX_SHIFT, MIN_SHIFTREDUCE, MAX_SHIFTREDUCE = 527, 764, 1132
ERROR_ACTION, ACCEPT_ACTION, MIN_REDUCE, END = 1133, 1134, 1136, 0


class Tables:
    def __init__(self, text):
        def array(name):
            body = re.search(r"\b%s\[\]\s*=\s*\{(.*?)\n\};" % name, text, re.S).group(1)
            return [int(x) for x in re.findall(r"-?\d+", re.sub(r"/\*.*?\*/", "", body, flags=re.S))]

        def names(name):
            return re.findall(r'"([^"]*)"', re.search(r"%s\[\]\s*=\s*\{(.*?)\n\};" % name, text, re.S).group(1))

        self.action, self.lookahead = array("yy_action"), array("yy_lookahead")
        self.shift_ofst, self.reduce_ofst = array("yy_shift_ofst"), array("yy_reduce_ofst")
        self.default, self.fallback = array("yy_default"), array("yyFallback")
        self.lhs, self.nrhs = array("yyRuleInfoLhs"), array("yyRuleInfoNRhs")
        self.tokens, self.rules = names("yyTokenName"), names("yyRuleName")
        number = {name: i for i, name in enumerate(self.tokens)}
        self.rhs = [[frozenset(number[x] for x in part.split("|")) for part in rule.split("::=")[1].split()]
                    for rule in self.rules]
        self.folded = {int(x) for x in re.findall(r"/\* \((\d+)\)[^*]*\(OPTIMIZED OUT\) \*/", text)}
        self.start = number["input"]

    def row(self, base, x):
        i = base + x
        return self.action[i] if 0 <= i < len(self.action) and self.lookahead[i] == x else None

    def goto(self, state, lhs):
        return self.row(self.reduce_ofst[state], lhs) if state < len(self.reduce_ofst) else None

    def admitted(self, choice):
        """The symbols that stand for one of these, by folded rules."""
        seen, work = set(choice), list(choice)
        while work:
            x = work.pop()
            for r in self.folded:
                if self.lhs[r] == x:
                    work += [y for y in self.rhs[r][0] if y not in seen]
                    seen |= self.rhs[r][0]
        return seen


class Annotation:
    def __init__(self, tables):
        self.t = tables
        self.below = [None] * YYNSTATE
        self.below[0] = ()
        self.gotos, self.rank, self.violations = set(), {}, []
        self.admitted = [[tables.admitted(choice) for choice in rhs] for rhs in tables.rhs]
        size = None
        while size != self.size():
            size = self.size()
            self.sweep()
        self.violations = []
        self.sweep()

    def size(self):
        return list(self.below), len(self.gotos), dict(self.rank)

    def complain(self, *what):
        self.violations.append(what)

    def pushed(self, state, x):
        return ((frozenset([x]), frozenset([state])),) + self.below[state]

    def enter(self, state, known):
        old = self.below[state]
        if old is not None:
            n = min(len(old), len(known))
            known = tuple((old[k][0] | known[k][0], old[k][1] | known[k][1]) for k in range(n))
        self.below[state] = known

    def reduce(self, known, top, rule, ending):
        t, n = self.t, len(self.t.rhs[rule])
        if rule in t.folded:
            self.complain("reduces by a folded rule", t.rules[rule])
        if n > len(known):
            self.complain("right-hand side not on the stack", t.rules[rule])
            return
        for k in range(n):
            if not known[k][0] <= self.admitted[rule][n - 1 - k]:
                self.complain("wrong symbol", t.rules[rule], k)
        for p in {top} if n == 0 else known[n - 1][1]:
            self.gotos.add((p, t.lhs[rule]))
            goto = t.goto(p, t.lhs[rule])
            if goto is None:
                self.complain("no goto", p, t.rules[rule])
                continue
            needed = self.rank.get(goto, 0) + 2 - n
            if needed > self.rank.get(top, 0):
                if needed > 10000:
                    sys.exit("no rank: reductions may go on for ever")
                self.rank[top] = needed
            if goto == ACCEPT_ACTION and not ending:
                self.complain("accepts before the end", t.rules[rule])

    def fused(self, state, x, rule):
        if not self.t.rhs[rule]:
            self.complain("fused action of an empty rule", self.t.rules[rule])
        self.reduce(self.pushed(state, x), MIN_REDUCE + rule, rule, False)

    def default(self, state, act, ending):
        if act >= MIN_REDUCE:
            self.reduce(self.below[state], state, act - MIN_REDUCE, ending)
        elif act != ERROR_ACTION:
            self.complain("bad action", state, act)

    def sweep(self):
        t = self.t
        for state in range(YYNSTATE):
            if self.below[state] is None:
                continue
            for x in range(YYNTOKEN):
                act = t.row(t.shift_ofst[state], x)
                if act is None:
                    continue
                if act <= MAX_SHIFT:
                    if act == 0:
                        self.complain("shift to the start", state, x)
                    self.enter(act, self.pushed(state, x))
                elif MIN_SHIFTREDUCE <= act <= MAX_SHIFTREDUCE:
                    self.fused(state, x, act - MIN_SHIFTREDUCE)
                else:
                    self.default(state, act, x == END)
            self.default(state, t.default[state], False)
        for state, lhs in sorted(self.gotos):
            act = t.goto(state, lhs)
            if act is None:
                continue
            if act <= MAX_SHIFT:
                if act == 0:
                    self.complain("goto to the start", state, lhs)
                self.enter(act, self.pushed(state, lhs))
            elif act == ACCEPT_ACTION:
                if state != 0 or lhs not in t.admitted({t.start}):
                    self.complain("accepts something else", state, lhs)
            elif act >= MIN_REDUCE:
                self.fused(state, lhs, act - MIN_REDUCE)
            else:
                self.complain("bad goto", state, lhs, act)


def shaped(t):
    n = len(t.action)
    return (n <= len(t.lookahead) and set(t.lookahead[n:]) <= {YYNOCODE}
            and len(t.shift_ofst) == len(t.default) == YYNSTATE and len(t.reduce_ofst) <= YYNSTATE
            and all(f < YYNTOKEN and (f >= len(t.fallback) or t.fallback[f] == 0) for f in t.fallback)
            and all(n <= 0 for n in t.nrhs) and YYNOCODE not in t.lhs
            and [len(r) for r in t.rhs] == [-n for n in t.nrhs])


def irregular(t):
    def fusable(rule):
        return rule < len(t.lhs) and t.nrhs[rule] != 0

    for state in range(YYNSTATE):
        for act in [t.row(t.shift_ofst[state], x) for x in range(YYNTOKEN)] + [t.default[state]]:
            if not (act is None or act <= MAX_SHIFT or act == ERROR_ACTION
                    or (MIN_SHIFTREDUCE <= act <= MAX_SHIFTREDUCE and fusable(act - MIN_SHIFTREDUCE))
                    or MIN_REDUCE <= act < MIN_REDUCE + len(t.lhs)):
                yield "irregular action", state, act
        for lhs in set(t.lhs):
            act = t.goto(state, lhs)
            if not (act is None or act <= MAX_SHIFT or act == ACCEPT_ACTION
                    or (act >= MIN_REDUCE and fusable(act - MIN_REDUCE))):
                yield "irregular goto", state, lhs, act


def main(path):
    with open(path) as source:
        t = Tables(source.read())
    a = Annotation(t)
    found = ([] if shaped(t) else [("not shaped",)]) + a.violations + list(irregular(t))
    for what in found:
        print(*what)
    print("violations:", len(found))
    print("states not reached:", sum(b is None for b in a.below))
    print("highest rank:", max(a.rank.values(), default=0))


if __name__ == "__main__":
    main(sys.argv[1])
